/** From datagrams to the PCM ring: what a stream of encoded frames, however its packets arrive, leaves in
    the ring. */
module RtpStream {
  import opened Wrappers
  import opened BitStream
  import opened AlacFrame
  import opened AlacMix
  import opened RtpQueue
  import opened RtpReceiver
  import opened RtpDecode
  import opened PcmRing
  import opened PcmFeed

  /** One packet's worth of stereo samples. */
  type Sound = s: Samples | s.Valid() witness Samples([], [])
  datatype Samples = Samples(left: seq<int>, right: seq<int>) {
    predicate Valid() {
      |left| == |right| && AllPcm(left) && AllPcm(right)
    }

    function Frames(): (fs: seq<Frame>)
      requires Valid()
      ensures |fs| == |left|
    {
      seq(|left|, i requires 0 <= i < |left| => Frame(left[i], right[i]))
    }
  }

  /** The payload decrypts to an encoded frame of these samples, padded to whole bytes. */
  ghost predicate Carries(payload: RtpQueue.Bytes, decrypt: Bytes -> Option<Bytes>, cfg: Config, sound: Sound) {
    && 0 < |payload| <= MAX_PKT
    && Clear(payload, decrypt).Some? && |Clear(payload, decrypt).value| == |payload|
    && exists c, pad :: GoodChoice(c, |sound.left|, cfg) && FitsHistory(sound.left, sound.right, c, cfg)
         && BitsOf(Clear(payload, decrypt).value) == EncodeFrame(sound.left, sound.right, c, cfg) + pad
  }

  /** Whatever an earlier packet left in the buffer, the payload decodes to the samples it carries. */
  lemma CarriedDecodes(payload: RtpQueue.Bytes, decrypt: Bytes -> Option<Bytes>, cfg: Config, sound: Sound,
                       stale: Bytes)
    requires Carries(payload, decrypt, cfg, sound) && |stale| >= 2
    ensures var d := AlacFrame.DecodeFrame(BitsOf(Clear(payload, decrypt).value + stale), cfg, PCM_BYTES);
            d.Some? && FramesOf(d.value.pcm) == sound.Frames()
  {
    var clear := Clear(payload, decrypt).value;
    var c, pad :| GoodChoice(c, |sound.left|, cfg) && FitsHistory(sound.left, sound.right, c, cfg)
      && BitsOf(clear) == EncodeFrame(sound.left, sound.right, c, cfg) + pad;
    hide AlacFrame.DecodeFrame, EncodeFrame, FitsHistory, GoodChoice, FramesOf, BitsOf, Clear;
    EncodedPayloadPlays(sound.left, sound.right, c, cfg, clear, pad, stale);
  }

  // ----- playing what the receiver hands on -----

  /** What one item should put into the ring. */
  ghost predicate StandsFor(item: Played, frames: seq<Frame>, decrypt: Bytes -> Option<Bytes>, cfg: Config,
                            frameLength: nat)
  {
    match item
    case Decode(payload) =>
      exists sound: Sound :: Carries(payload, decrypt, cfg, sound) && frames == sound.Frames()
    case Silence => frames == Repeat(SILENT, frameLength)
  }

  function Flatten(pieces: seq<seq<Frame>>): seq<Frame> {
    if pieces == [] then [] else Flatten(pieces[..|pieces| - 1]) + pieces[|pieces| - 1]
  }

  function FeedItem(p: Progress, capacity: nat, item: Played, n: nat): (r: Progress)
    requires p.fill < capacity
    ensures r.fill < capacity
  {
    if item.Decode? then Feed(p, capacity, n) else FeedChunks(p, capacity, n)
  }

  /** How far feeding the items one after the other gets. */
  function FeedItems(p: Progress, capacity: nat, items: seq<Played>, pieces: seq<seq<Frame>>): (r: Progress)
    requires p.fill < capacity && |items| == |pieces|
    ensures r.fill < capacity
  {
    if items == [] then p
    else
      var n := |items| - 1;
      FeedItem(FeedItems(p, capacity, items[..n], pieces[..n]), capacity, items[n], |pieces[n]|)
  }

  lemma ItemShift(p: Progress, capacity: nat, item: Played, n: nat, before: nat)
    requires p.fill < capacity && p.sent == 0
    ensures var r := FeedItem(p, capacity, item, n);
            FeedItem(p.(sent := before), capacity, item, n) == r.(sent := before + r.sent)
  {
    FeedShift(p, capacity, n, before);
    ChunksShift(p, capacity, n, before);
    hide Feed, FeedChunks;
  }

  /** Decodes and feeds one item. */
  method PlayItem(player: Player, item: Played, decrypt: Bytes -> Option<Bytes>, frameLength: nat,
                  ghost frames: seq<Frame>)
    returns (fed: nat)
    requires player.Valid() && KeepsLength(decrypt) && StandsFor(item, frames, decrypt, player.alac.cfg, frameLength)
    modifies player.plain, player.pcm, player.alac, player.alac.predictErrorA, player.alac.predictErrorB,
      player.alac.outputSamplesA, player.alac.outputSamplesB, player.feeder`polls, player.feeder.ring,
      player.feeder.ring.storage
    ensures player.Valid() && fed <= |frames|
    ensures player.feeder.ring.written == old(player.feeder.ring.written) + frames[..fed]
    ensures player.feeder.At(fed) == FeedItem(old(player.feeder.At(0)), player.feeder.ring.capacity, item, |frames|)
    ensures fed == |frames| || player.feeder.Stopped()
  {
    hide Feed, FeedChunks, Carries, AlacFrame.DecodeFrame, BitsOf, FramesOf, Clear, KeepsLength;
    match item
    case Decode(payload) =>
      ghost var sound: Sound :| Carries(payload, decrypt, player.alac.cfg, sound)
        && frames == sound.Frames();
      CarriedShape(payload, decrypt, player.alac.cfg, sound);
      CarriedDecodes(payload, decrypt, player.alac.cfg, sound, player.plain[|payload|..]);
      fed := player.DecodeAndFeed(payload, decrypt);
    case Silence =>
      fed := player.feeder.FeedSilence(frameLength);
      assert Repeat(SILENT, frameLength)[..fed] == Repeat(SILENT, fed);
  }

  /** Where feeding these items stands: how many of their frames are in, and that nothing else is. */
  ghost predicate Fed(player: Player, p: Progress, start: seq<Frame>, items: seq<Played>, pieces: seq<seq<Frame>>,
                      sent: nat)
    requires player.Valid() && p.fill < player.feeder.ring.capacity && |items| == |pieces|
    reads player, player.feeder, player.feeder.ring, player.feeder.ring.storage
  {
    && sent <= |Flatten(pieces)|
    && player.feeder.ring.written == start + Flatten(pieces)[..sent]
    && player.feeder.At(sent) == FeedItems(p, player.feeder.ring.capacity, items, pieces)
    && (sent == |Flatten(pieces)| || player.feeder.Stopped())
  }

  /** The items from index `from` on, in order, after those before it. */
  method PlayOut(player: Player, items: seq<Played>, from: nat, before: nat, decrypt: Bytes -> Option<Bytes>,
                 frameLength: nat, ghost pieces: seq<seq<Frame>>, ghost p: Progress, ghost start: seq<Frame>)
    returns (sent: nat)
    requires player.Valid() && KeepsLength(decrypt) && from <= |items| == |pieces|
    requires p.fill < player.feeder.ring.capacity
    requires Fed(player, p, start, items[..from], pieces[..from], before)
    requires forall i :: 0 <= i < |items| ==>
      StandsFor(items[i], pieces[i], decrypt, player.alac.cfg, frameLength)
    modifies player.plain, player.pcm, player.alac, player.alac.predictErrorA, player.alac.predictErrorB,
      player.alac.outputSamplesA, player.alac.outputSamplesB, player.feeder`polls, player.feeder.ring,
      player.feeder.ring.storage
    ensures player.Valid() && Fed(player, p, start, items, pieces, sent)
  {
    hide *;
    sent := before;
    for i := from to |items|
      invariant player.Valid() && Fed(player, p, start, items[..i], pieces[..i], sent)
    {
      assert items[..i + 1] == items[..i] + [items[i]] && pieces[..i + 1] == pieces[..i] + [pieces[i]];
      sent := PlayNext(player, items[i], decrypt, frameLength, pieces[i], p, start, items[..i], pieces[..i], sent);
    }
    assert items[..|items|] == items && pieces[..|items|] == pieces;
  }

  /** One more item. */
  method PlayNext(player: Player, item: Played, decrypt: Bytes -> Option<Bytes>, frameLength: nat,
                  ghost frames: seq<Frame>, ghost p: Progress, ghost start: seq<Frame>, ghost items: seq<Played>,
                  ghost pieces: seq<seq<Frame>>, before: nat)
    returns (sent: nat)
    requires player.Valid() && KeepsLength(decrypt) && |items| == |pieces| && p.fill < player.feeder.ring.capacity
    requires Fed(player, p, start, items, pieces, before)
    requires StandsFor(item, frames, decrypt, player.alac.cfg, frameLength)
    modifies player.plain, player.pcm, player.alac, player.alac.predictErrorA, player.alac.predictErrorB,
      player.alac.outputSamplesA, player.alac.outputSamplesB, player.feeder`polls, player.feeder.ring,
      player.feeder.ring.storage
    ensures player.Valid() && Fed(player, p, start, items + [item], pieces + [frames], sent)
  {
    hide StandsFor, FeedItem, KeepsLength, Flatten, FeedItems;
    ghost var was, stopped := player.feeder.At(0), player.feeder.Stopped();
    ItemShift(was, player.feeder.ring.capacity, item, |frames|, before);
    var fed := PlayItem(player, item, decrypt, frameLength, frames);
    if stopped {
      StoppedItem(was, player.feeder.ring.capacity, item, |frames|);
    }
    ItemsSnoc(p, player.feeder.ring.capacity, items, pieces, item, frames);
    Extends(Flatten(pieces), before, frames, fed);
    sent := before + fed;
  }

  lemma ItemsSnoc(p: Progress, capacity: nat, items: seq<Played>, pieces: seq<seq<Frame>>, item: Played,
                  frames: seq<Frame>)
    requires p.fill < capacity && |items| == |pieces|
    ensures Flatten(pieces + [frames]) == Flatten(pieces) + frames
    ensures FeedItems(p, capacity, items + [item], pieces + [frames])
         == FeedItem(FeedItems(p, capacity, items, pieces), capacity, item, |frames|)
  {
    hide FeedItem;
    assert (items + [item])[..|items|] == items && (pieces + [frames])[..|pieces|] == pieces;
  }

  lemma StoppedItem(p: Progress, capacity: nat, item: Played, n: nat)
    requires p.fill < capacity && forall i :: 0 <= i < |p.polls| ==> !p.polls[i].run
    ensures var r := FeedItem(p, capacity, item, n);
            r.sent == p.sent && forall i :: 0 <= i < |r.polls| ==> !r.polls[i].run
  {
    StoppedFeedsNothing(p, capacity, n);
    hide Feed, FeedChunks;
  }

  lemma Extends(a: seq<Frame>, sent: nat, b: seq<Frame>, fed: nat)
    requires sent <= |a| && fed <= |b| && (sent == |a| || fed == 0)
    ensures a[..sent] + b[..fed] == (a + b)[..sent + fed]
  {
  }

  lemma CarriedShape(payload: RtpQueue.Bytes, decrypt: Bytes -> Option<Bytes>, cfg: Config, sound: Sound)
    requires Carries(payload, decrypt, cfg, sound)
    ensures 0 < |payload| <= MAX_PKT && Clear(payload, decrypt).Some?
    ensures |Clear(payload, decrypt).value| == |payload|
  {
  }

  // ----- whole streams -----

  /** A sender: the payload, time stamp and samples of each of its packets, how the payload is encrypted, the
      stream description, and the length of a concealed frame. */
  datatype Source = Source(
    payload: int -> RtpQueue.Bytes, stamp: int -> nat, sounds: int -> Sound, decrypt: Bytes -> Option<Bytes>,
    cfg: Config, frameLength: nat)
  {
    ghost predicate Sends() {
      forall t :: stamp(t) < 0x1_0000_0000 && Carries(payload(t), decrypt, cfg, sounds(t))
    }

    /** What a number the cursor has passed puts into the ring: its packet's samples, or silence. */
    ghost function Piece(x: PopResult): seq<Frame> {
      if x.Ok? then sounds(x.number).Frames() else Repeat(Frame(0, 0), frameLength)
    }

    ghost function Pieces(log: seq<PopResult>): (ps: seq<seq<Frame>>)
      ensures |ps| == |log|
    {
      seq(|log|, i requires 0 <= i < |log| => Piece(log[i]))
    }
  }

  /** The datagrams of these arrivals, each within half the sequence space of the cursor, as a started receiver
      with nothing buffered finds them. */
  ghost predicate AnyStream(q: Queue, ds: seq<Datagram>, arrivals: seq<Arrival>, src: Source) {
    && q.Valid() && q.started && q.pending == map[] && q.window <= 0x8000
    && src.Sends() && ds == Datagrams(arrivals, src.payload, src.stamp)
    && WithinReach(q, Numbers(arrivals), src.payload)
  }

  /** Consecutive numbers, each played as the packet that arrived under it or concealed. */
  ghost predicate Accounted(log: seq<PopResult>, first: int, arrivals: seq<Arrival>, src: Source) {
    forall i :: 0 <= i < |log| ==>
      log[i] == Conceal(first + i)
      || (log[i] == Ok(first + i, src.payload(first + i)) && first + i in Numbers(arrivals))
  }

  /** Every number up to `next` has arrived and been played, `next` has not arrived. */
  ghost predicate InOrder(log: seq<PopResult>, first: int, next: int, arrivals: seq<Arrival>, src: Source) {
    && next !in Numbers(arrivals) && |log| == next - first
    && forall i :: 0 <= i < |log| ==>
         log[i] == Ok(first + i, src.payload(first + i)) && first + i in Numbers(arrivals)
  }

  /** Items and what they stand for, after any number of the datagrams. */
  lemma AllStand(q: Queue, ds: seq<Datagram>, arrivals: seq<Arrival>, src: Source, n: nat)
    requires AnyStream(q, ds, arrivals, src) && n <= |ds|
    ensures var r := ReceiveAll(Receiver(q, []), ds[..n]);
      && |r.played| == r.q.next - q.next && Accounted(r.played, q.next, arrivals, src)
      && (forall x :: x in r.played ==> x.Ok? || x.Conceal?)
      && forall i :: 0 <= i < |r.played| ==>
           StandsFor(AllPlayed(r.played)[i], src.Pieces(r.played)[i], src.decrypt, src.cfg, src.frameLength)
  {
    hide *;
    AnyParts(q, ds, arrivals, src);
    StreamIsAccounted(q, arrivals, n, src.payload, src.stamp);
    var r := ReceiveAll(Receiver(q, []), ds[..n]);
    AccountsMean(r, q.next, arrivals, n, src);
    LogStands(r.played, q.next, src);
  }

  lemma AnyParts(q: Queue, ds: seq<Datagram>, arrivals: seq<Arrival>, src: Source)
    requires AnyStream(q, ds, arrivals, src)
    ensures q.Valid() && q.started && q.pending == map[] && q.window <= 0x8000
    ensures src.Sends() && ds == Datagrams(arrivals, src.payload, src.stamp) && |ds| == |arrivals|
    ensures WithinReach(q, Numbers(arrivals), src.payload)
    ensures forall t :: src.stamp(t) < 0x1_0000_0000
    ensures forall t :: 0 < |src.payload(t)| <= MAX_PKT
  {
    Shapes(src);
    hide WithinReach, Numbers, Source.Sends, Queue.Valid;
  }

  lemma AccountsMean(r: Receiver, first: int, arrivals: seq<Arrival>, n: nat, src: Source)
    requires n <= |arrivals| && Accounts(r, first, Numbers(arrivals)[..n], src.payload)
    ensures |r.played| == r.q.next - first && Accounted(r.played, first, arrivals, src)
    ensures forall i :: 0 <= i < |r.played| ==>
      r.played[i] == Conceal(first + i) || r.played[i] == Ok(first + i, src.payload(first + i))
  {
    hide Numbers;
  }

  lemma LogStands(log: seq<PopResult>, first: int, src: Source)
    requires src.Sends()
    requires forall i :: 0 <= i < |log| ==>
      log[i] == Conceal(first + i) || log[i] == Ok(first + i, src.payload(first + i))
    ensures forall x :: x in log ==> x.Ok? || x.Conceal?
    ensures forall i :: 0 <= i < |log| ==>
      StandsFor(AllPlayed(log)[i], src.Pieces(log)[i], src.decrypt, src.cfg, src.frameLength)
  {
    hide *;
    LogShapes(log);
    forall i | 0 <= i < |log|
      ensures StandsFor(AllPlayed(log)[i], src.Pieces(log)[i], src.decrypt, src.cfg, src.frameLength)
    {
      AtIndex(log, i, src);
      OneStands(log[i], first + i, src);
    }
  }

  lemma LogShapes(log: seq<PopResult>)
    requires forall i :: 0 <= i < |log| ==> log[i].Ok? || log[i].Conceal?
    ensures forall x :: x in log ==> x.Ok? || x.Conceal?
  {
  }

  lemma AtIndex(log: seq<PopResult>, i: nat, src: Source)
    requires i < |log| && forall x :: x in log ==> x.Ok? || x.Conceal?
    ensures log[i].Ok? || log[i].Conceal?
    ensures AllPlayed(log)[i] == PlayedOf(log[i]) && src.Pieces(log)[i] == src.Piece(log[i])
  {
    hide PlayedOf, Source.Piece;
  }

  lemma OneStands(x: PopResult, t: int, src: Source)
    requires src.Sends() && (x == Conceal(t) || x == Ok(t, src.payload(t)))
    ensures StandsFor(PlayedOf(x), src.Piece(x), src.decrypt, src.cfg, src.frameLength)
  {
    hide Carries;
    assert Carries(src.payload(t), src.decrypt, src.cfg, src.sounds(t));
  }

  /** The looks at the flag suffice: the task runs on, the playback side keeps taking frames, and there are
      that many looks. */
  predicate Ample(polls: seq<Poll>, need: nat) {
    AllRun(polls) && KeepsDraining(polls) && need <= |polls|
  }

  /** The looks that feeding these items may take: one a frame, and one more a frame of silence. */
  function Looks(items: seq<Played>, pieces: seq<seq<Frame>>): nat
    requires |items| == |pieces|
  {
    if items == [] then 0
    else
      var n := |items| - 1;
      Looks(items[..n], pieces[..n]) + if items[n].Decode? then |pieces[n]| else 2 * |pieces[n]|
  }

  lemma {:induction false} LooksBound(items: seq<Played>, pieces: seq<seq<Frame>>)
    requires |items| == |pieces|
    ensures |Flatten(pieces)| <= Looks(items, pieces) <= 2 * |Flatten(pieces)|
    decreases |items|
  {
    if items == [] {
    } else {
      LooksBound(items[..|items| - 1], pieces[..|items| - 1]);
    }
  }

  /** The last item by itself. */
  lemma LastItem(p: Progress, capacity: nat, items: seq<Played>, pieces: seq<seq<Frame>>)
    requires p.fill < capacity && |items| == |pieces| && items != []
    ensures var n := |items| - 1;
      && FeedItems(p, capacity, items, pieces)
         == FeedItem(FeedItems(p, capacity, items[..n], pieces[..n]), capacity, items[n], |pieces[n]|)
      && Looks(items, pieces)
         == Looks(items[..n], pieces[..n]) + (if items[n].Decode? then |pieces[n]| else 2 * |pieces[n]|)
      && |Flatten(pieces)| == |Flatten(pieces[..n])| + |pieces[n]|
  {
    hide FeedItem;
  }

  lemma ItemCompletes(r: Progress, capacity: nat, item: Played, n: nat, extra: nat)
    requires r.fill < capacity && 2 <= capacity && Ample(r.polls, (if item.Decode? then n else 2 * n) + extra)
    ensures FeedItem(r, capacity, item, n).sent == r.sent + n && Ample(FeedItem(r, capacity, item, n).polls, extra)
  {
    hide Feed, FeedChunks, AllRun, KeepsDraining;
    if item.Decode? {
      FeedCompletes(r, capacity, n);
    } else {
      ChunksComplete(r, capacity, n);
    }
  }

  lemma NoItems(p: Progress, capacity: nat)
    requires p.fill < capacity
    ensures FeedItems(p, capacity, [], []) == p && Looks([], []) == 0 && Flatten([]) == []
  {
  }

  lemma {:induction false} ItemsComplete(p: Progress, capacity: nat, items: seq<Played>,
                                         pieces: seq<seq<Frame>>, extra: nat)
    requires p.fill < capacity && 2 <= capacity && |items| == |pieces| && p.sent == 0
    requires Ample(p.polls, Looks(items, pieces) + extra)
    ensures var r := FeedItems(p, capacity, items, pieces);
            r.sent == |Flatten(pieces)| && Ample(r.polls, extra)
    decreases |items|
  {
    hide *;
    if items == [] {
      NoItems(p, capacity);
    } else {
      var n := |items| - 1;
      var need := if items[n].Decode? then |pieces[n]| else 2 * |pieces[n]|;
      LastItem(p, capacity, items, pieces);
      ItemsComplete(p, capacity, items[..n], pieces[..n], need + extra);
      ItemCompletes(FeedItems(p, capacity, items[..n], pieces[..n]), capacity, items[n], |pieces[n]|, extra);
    }
  }

  /** From datagrams to the ring, whatever is lost, late, doubled or resent: the ring's stream grows by the
      samples or the silence of consecutive packets, all of them when the playback side keeps up. When packets
      are reordered by less than the hold distance and every loss is repaired in time it is the sender's
      samples, up to the first packet that has not arrived. */
  method PlayStream(rx: RtpTask, player: Player, ds: seq<Datagram>, recent: seq<bool>, decrypt: Bytes -> Option<Bytes>,
                    frameLength: nat, ghost arrivals: seq<Arrival>, ghost src: Source)
    returns (sent: nat)
    requires rx.Valid() && rx.log == [] && |recent| == |ds| && AnyStream(rx.reorder.q, ds, arrivals, src)
    requires player.Valid() && KeepsLength(decrypt) && player.feeder.ring.capacity >= 2
    requires src.decrypt == decrypt && src.cfg == player.alac.cfg && src.frameLength == frameLength
    modifies rx, rx.reorder, rx.reorder.slots, player.plain, player.pcm, player.alac, player.alac.predictErrorA,
      player.alac.predictErrorB, player.alac.outputSamplesA, player.alac.outputSamplesB, player.feeder`polls,
      player.feeder.ring, player.feeder.ring.storage
    ensures rx.Valid() && |rx.log| == rx.reorder.q.next - old(rx.reorder.q.next)
    ensures Accounted(rx.log, old(rx.reorder.q.next), arrivals, src)
    ensures BoundedReorder(Numbers(arrivals), old(rx.reorder.q.next), old(rx.reorder.q.hold)) ==>
      InOrder(rx.log, old(rx.reorder.q.next), rx.reorder.q.next, arrivals, src)
    ensures var all := Flatten(src.Pieces(rx.log));
      && sent <= |all| && player.feeder.ring.written == old(player.feeder.ring.written) + all[..sent]
      && (sent == |all| || player.feeder.Stopped())
      && (Ample(old(player.feeder.polls), Looks(rx.played, src.Pieces(rx.log))) ==> sent == |all|)
  {
    ghost var q, p, start := rx.reorder.q, player.feeder.At(0), player.feeder.ring.written;
    hide *;
    TaskFacts(rx);
    FedNothing(player, p, start);
    sent := 0;
    assert ds[..0] == [] && rx.played == [] && src.Pieces(rx.log) == [];
    ReceiveNothing(rx.Model());
    for i := 0 to |ds|
      invariant rx.Valid() && player.Valid() && |rx.played| == |rx.log|
      invariant rx.Model() == ReceiveAll(Receiver(q, []), ds[..i])
      invariant Fed(player, p, start, rx.played, src.Pieces(rx.log), sent)
    {
      sent := PlayDatagram(rx, player, ds, i, recent[i], sent, decrypt, frameLength, arrivals, src, q, p, start);
    }
    assert ds[..|ds|] == ds;
    AllStand(q, ds, arrivals, src, |ds|);
    TaskFacts(rx);
    FedMeans(player, p, start, rx.played, src.Pieces(rx.log), sent);
    if BoundedReorder(Numbers(arrivals), q.next, q.hold) {
      GoodStream(q, ds, arrivals, src);
    }
  }

  /** One datagram of the stream, and playing what it sets free. */
  method PlayDatagram(rx: RtpTask, player: Player, ds: seq<Datagram>, i: nat, recent: bool, before: nat,
                      decrypt: Bytes -> Option<Bytes>, frameLength: nat, ghost arrivals: seq<Arrival>,
                      ghost src: Source, ghost q: Queue, ghost p: Progress, ghost start: seq<Frame>)
    returns (sent: nat)
    requires rx.Valid() && i < |ds| && AnyStream(q, ds, arrivals, src) && q.Valid()
    requires player.Valid() && KeepsLength(decrypt) && p.fill < player.feeder.ring.capacity
    requires src.decrypt == decrypt && src.cfg == player.alac.cfg && src.frameLength == frameLength
    requires |rx.played| == |rx.log| && rx.Model() == ReceiveAll(Receiver(q, []), ds[..i])
    requires Fed(player, p, start, rx.played, src.Pieces(rx.log), before)
    modifies rx, rx.reorder, rx.reorder.slots, player.plain, player.pcm, player.alac, player.alac.predictErrorA,
      player.alac.predictErrorB, player.alac.outputSamplesA, player.alac.outputSamplesB, player.feeder`polls,
      player.feeder.ring, player.feeder.ring.storage
    ensures rx.Valid() && player.Valid() && |rx.played| == |rx.log|
    ensures rx.Model() == ReceiveAll(Receiver(q, []), ds[..i + 1])
    ensures Fed(player, p, start, rx.played, src.Pieces(rx.log), sent)
  {
    hide *;
    ghost var was, log, played := rx.Model(), rx.log, rx.played;
    var from := |rx.played|;
    TaskFacts(rx);
    assert ds[..i + 1] == ds[..i] + [ds[i]];
    ReceiveSnoc(Receiver(q, []), ds[..i], ds[i]);
    ReceiveExtends(was, ds[i]);
    var _ := rx.Handle(ds[i], recent);
    TaskFacts(rx);
    AllStand(q, ds, arrivals, src, i + 1);
    PrefixPlayed(log, rx.log, src);
    assert rx.played[..from] == played && src.Pieces(rx.log)[..from] == src.Pieces(log);
    sent := PlayOut(player, rx.played, from, before, decrypt, frameLength, src.Pieces(rx.log), p, start);
  }

  lemma TaskFacts(rx: RtpTask)
    requires rx.Valid()
    ensures rx.reorder.q.Valid() && rx.Model() == Receiver(rx.reorder.q, rx.log)
    ensures (forall r :: r in rx.log ==> r.Ok? || r.Conceal?) && rx.played == AllPlayed(rx.log)
    ensures |rx.played| == |rx.log|
  {
  }

  lemma FedNothing(player: Player, p: Progress, start: seq<Frame>)
    requires player.Valid() && p == player.feeder.At(0) && start == player.feeder.ring.written
    ensures p.fill < player.feeder.ring.capacity && p.sent == 0 && p.polls == player.feeder.polls
    ensures Fed(player, p, start, [], [], 0)
  {
    assert start + [] == start;
  }

  lemma ReceiveNothing(r: Receiver)
    requires r.q.Valid()
    ensures ReceiveAll(r, []) == r
  {
  }

  /** What was handed on before stays in front. */
  lemma PrefixPlayed(log: seq<PopResult>, longer: seq<PopResult>, src: Source)
    requires log <= longer && forall r :: r in longer ==> r.Ok? || r.Conceal?
    ensures forall r :: r in log ==> r.Ok? || r.Conceal?
    ensures AllPlayed(longer)[..|log|] == AllPlayed(log) && src.Pieces(longer)[..|log|] == src.Pieces(log)
  {
    hide Source.Piece;
  }

  lemma FedMeans(player: Player, p: Progress, start: seq<Frame>, items: seq<Played>, pieces: seq<seq<Frame>>,
                 sent: nat)
    requires player.Valid() && p.fill < player.feeder.ring.capacity && |items| == |pieces| && p.sent == 0
    requires player.feeder.ring.capacity >= 2 && Fed(player, p, start, items, pieces, sent)
    ensures var all := Flatten(pieces);
      && sent <= |all| && player.feeder.ring.written == start + all[..sent]
      && (sent == |all| || player.feeder.Stopped())
      && (Ample(p.polls, Looks(items, pieces)) ==> sent == |all|)
  {
    hide Flatten, FeedItems, Looks, Ample;
    if Ample(p.polls, Looks(items, pieces)) {
      ItemsComplete(p, player.feeder.ring.capacity, items, pieces, 0);
    }
  }

  /** With reordering bounded by the hold distance nothing is concealed. */
  lemma GoodStream(q: Queue, ds: seq<Datagram>, arrivals: seq<Arrival>, src: Source)
    requires AnyStream(q, ds, arrivals, src) && BoundedReorder(Numbers(arrivals), q.next, q.hold)
    ensures var r := ReceiveAll(Receiver(q, []), ds); InOrder(r.played, q.next, r.q.next, arrivals, src)
  {
    hide *;
    AnyParts(q, ds, arrivals, src);
    WireArrivals(q, arrivals, src.payload, src.stamp);
    InOrderDelivery(q, Numbers(arrivals), src.payload);
    InStepMeans(ReceiveAll(Receiver(q, []), ds), q, arrivals, src);
  }

  lemma InStepMeans(r: Receiver, q: Queue, arrivals: seq<Arrival>, src: Source)
    requires InStep(r, q, Numbers(arrivals), src.payload)
    ensures InOrder(r.played, q.next, r.q.next, arrivals, src)
  {
    hide Numbers, Queue.Valid;
  }

  lemma Shapes(src: Source)
    requires src.Sends()
    ensures forall t :: src.stamp(t) < 0x1_0000_0000
    ensures forall t :: 0 < |src.payload(t)| <= MAX_PKT
  {
    hide Carries;
    forall t
      ensures 0 < |src.payload(t)| <= MAX_PKT
    {
      assert Carries(src.payload(t), src.decrypt, src.cfg, src.sounds(t));
      CarriedShape(src.payload(t), src.decrypt, src.cfg, src.sounds(t));
    }
  }
}
