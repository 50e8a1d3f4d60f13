/** The receive path that drives the reorder buffer: datagrams in, payloads to decode and
    concealments out, resend requests for front gaps. */
module RtpReceiver {
  import opened Wrappers
  import opened Arith
  import opened RtpQueue
  import opened RtpReorder
  import opened RtpPackets

  /** A datagram by the socket it came in on. */
  datatype Datagram = Audio(bytes: Bytes) | Control(bytes: Bytes)

  /** The audio packet a datagram carries, if any. */
  function Carried(d: Datagram): Option<RtpHeader> {
    var inner :- match d
      case Audio(bytes) => Some(bytes)
      case Control(bytes) => Unwrap(bytes);
    var h :- RtpParse(inner);
    if h.payloadType == RTP_PT_AUDIO then Some(h) else None
  }

  /** A datagram carries audio when its packet, on the control socket the one it wraps, is of type 0x60, with or
      without the marker. */
  lemma CarriedExactly(bytes: Bytes)
    ensures Carried(Audio(bytes)) ==
      if |bytes| >= 12 && (bytes[1] == 0x60 || bytes[1] == 0xE0) then RtpParse(bytes) else None
    ensures Carried(Control(bytes)) ==
      if |bytes| >= 16 && (bytes[1] == 0x56 || bytes[1] == 0xD6) && (bytes[5] == 0x60 || bytes[5] == 0xE0) then
        RtpParse(bytes[4..])
      else None
  {
    hide Be16, Be32;
  }

  /** What the receiver makes of a datagram: an arrival of the packet whose number its sequence number
      stands for. The first audio packet anchors the buffer even when it is empty. */
  function Receive(r: Receiver, d: Datagram): (r': Receiver)
    requires r.q.Valid()
    ensures r'.q.Valid()
  {
    match Carried(d)
    case None => r
    case Some(h) =>
      var t := NumberOf(r.q, h.seqNo);
      var q := if d.Audio? && !r.q.started then r.q.Anchor(t) else r.q;
      AnchorIfEmpty(r.q, t);
      Arrive(Receiver(q, r.played), t, h.payload)
  }

  lemma AnchorIfEmpty(q: Queue, t: int)
    requires q.Valid()
    ensures !q.started ==> q.pending == map[] && q.Anchor(t).Valid()
  {
    if !q.started {
      q.AnchorValid(t);
    }
  }

  /** What the decoder is handed for one pop. */
  datatype Played = Decode(payload: Bytes) | Silence

  function PlayedOf(r: PopResult): Played
    requires r.Ok? || r.Conceal?
  {
    if r.Ok? then Decode(r.data) else Silence
  }

  function AllPlayed(rs: seq<PopResult>): (ps: seq<Played>)
    requires forall r :: r in rs ==> r.Ok? || r.Conceal?
    ensures |ps| == |rs|
  {
    seq(|rs|, i requires 0 <= i < |rs| => PlayedOf(rs[i]))
  }

  lemma PlayedSnoc(rs: seq<PopResult>, r: PopResult)
    requires forall x :: x in rs ==> x.Ok? || x.Conceal?
    requires r.Ok? || r.Conceal?
    ensures AllPlayed(rs + [r]) == AllPlayed(rs) + [PlayedOf(r)]
  {
  }

  class RtpTask {
    const reorder: Reorder
    var played: seq<Played>
    var peerKnown: bool
    const controlBound: bool
    var resendFirst: nat
    var resendValid: bool
    ghost var log: seq<PopResult>

    ghost predicate Valid()
      reads this, reorder, reorder.slots
    {
      && reorder.Valid()
      && (forall r :: r in log ==> r.Ok? || r.Conceal?)
      && played == AllPlayed(log)
    }

    /** The gap asked for last, by its first number. */
    ghost function Asked(): Option<nat>
      reads this
    {
      if resendValid then Some(resendFirst) else None
    }

    ghost function Model(): Receiver
      reads this, reorder
    {
      Receiver(reorder.q, log)
    }

    constructor (window: nat, hold: nat, peerKnown: bool, controlBound: bool)
      requires GoodWindow(window)
      ensures Valid() && fresh(reorder) && fresh(reorder.slots)
      ensures !reorder.started && reorder.q.pending == map[] && played == [] && log == []
      ensures this.peerKnown == peerKnown && this.controlBound == controlBound && Asked() == None
      ensures reorder.window == window && reorder.hold == if 0 < hold < window then hold else window - 1
    {
      reorder := new Reorder(window, hold);
      played, log := [], [];
      this.peerKnown, this.controlBound := peerKnown, controlBound;
      resendFirst, resendValid := 0, false;
    }

    /** One pop, and handing on what it delivers or conceals. */
    method PopAndPlay() returns (more: bool)
      requires Valid()
      modifies this`played, this`log, reorder, reorder.slots
      ensures Valid()
      ensures var (q1, res) := old(reorder.q).Pop();
        && reorder.q == q1 && more == (res.Ok? || res.Conceal?)
        && log == old(log) + if more then [res] else []
    {
      hide AllPlayed, Seq;
      ghost var q, done := reorder.q, log;
      var r := reorder.Pop();
      more := r.PopOk? || r.PopConceal?;
      if r.PopOk? {
        played := played + [Decode(r.data)];
      } else if r.PopConceal? {
        played := played + [Silence];
      } else {
        assert log + [] == log;
        return;
      }
      log := log + [q.Pop().1];
      PlayedSnoc(done, q.Pop().1);
    }

    /** Pops until the buffer waits or is empty. */
    method DrainDecode()
      requires Valid()
      modifies this`played, this`log, reorder, reorder.slots
      ensures Valid()
      ensures reorder.q == Drain(old(reorder.q)).0
      ensures log == old(log) + Drain(old(reorder.q)).1
    {
      hide Drain, AllPlayed, Queue.Pop;
      ghost var start := reorder.q;
      while true
        invariant Valid()
        invariant old(log) + Drain(start).1 == log + Drain(reorder.q).1
        invariant Drain(start).0 == Drain(reorder.q).0
        decreases reorder.q.head - reorder.q.next
      {
        ghost var q, done := reorder.q, log;
        DrainStep(q);
        var more := PopAndPlay();
        if !more {
          assert log + [] == log;
          return;
        }
        assert done + ([q.Pop().1] + Drain(reorder.q).1) == log + Drain(reorder.q).1;
      }
    }

    /** Buffers one payload; what the buffer thinks of it is ignored. */
    method InsertAudio(seqNo: nat, payload: Bytes)
      requires Valid() && seqNo < SEQ_SPACE
      modifies reorder, reorder.slots
      ensures Valid() && reorder.q == old(reorder.q).Insert(NumberOf(old(reorder.q), seqNo), payload).0
    {
      if payload == [] {
        return;
      }
      var _ := reorder.Insert(seqNo, payload);
    }

    /** Buffers a payload and plays what it sets free: an arrival. */
    method TakeIn(seqNo: nat, payload: Bytes)
      requires Valid() && seqNo < SEQ_SPACE
      modifies this`played, this`log, reorder, reorder.slots
      ensures Valid() && Model() == Arrive(old(Model()), NumberOf(old(reorder.q), seqNo), payload)
      ensures old(reorder.started) ==> Settled(reorder.q)
    {
      hide Drain, AllPlayed, NumberOf, Settled;
      InsertAudio(seqNo, payload);
      if reorder.q.started {
        DrainSettles(reorder.q);
      }
      DrainDecode();
    }

    /** A datagram on the audio socket. Behind it the gap in front, if there is one, is asked for. */
    method HandleAudio(pkt: Bytes, recent: bool) returns (request: Option<Bytes>)
      requires Valid()
      modifies this, reorder, reorder.slots
      ensures Valid() && Model() == Receive(old(Model()), Audio(pkt))
      ensures request.Some? <==> Asks(Audio(pkt), reorder.q, controlBound, old(Asked()), recent)
      ensures request.Some? ==>
        GoodRequest(reorder.q, request.value) && Be16(request.value[6..]) < reorder.hold
      ensures Asked() == if request.Some? then Some(Seq(reorder.q.next)) else old(Asked())
    {
      request := None;
      if pkt == [] {
        return;
      }
      var h := RtpParse(pkt);
      if h.None? || h.value.payloadType != RTP_PT_AUDIO {
        return;
      }
      hide *;
      TakeAudio(pkt, h.value);
      SettledGap(reorder.q);
      request := MaybeRequestResend(recent);
      AsksIs(pkt, reorder.q, controlBound, old(Asked()), recent);
    }

    lemma AsksIs(pkt: Bytes, q: Queue, bound: bool, was: Option<nat>, recent: bool)
      requires RtpParse(pkt).Some? && RtpParse(pkt).value.payloadType == RTP_PT_AUDIO
      ensures Asks(Audio(pkt), q, bound, was, recent)
          <==> bound && (exists count: nat :: GapIs(q, count)) && !(recent && was == Some(Seq(q.next)))
    {
      hide GapIs, RtpParse, Seq;
    }

    /** The first audio packet anchors the buffer and, if nothing has, makes the peer known; every one is taken
        in. */
    method TakeAudio(pkt: Bytes, h: RtpHeader)
      requires Valid() && RtpParse(pkt) == Some(h) && h.payloadType == RTP_PT_AUDIO
      modifies this`played, this`log, this`peerKnown, reorder, reorder.slots
      ensures Valid() && Model() == Receive(old(Model()), Audio(pkt)) && Settled(reorder.q) && peerKnown
    {
      hide Settled, Arrive, NumberOf, AllPlayed, Seq;
      ghost var t := NumberOf(reorder.q, h.seqNo);
      AnchorIfEmpty(reorder.q, t);
      NumberOfSeq(reorder.q, h.seqNo);
      if !reorder.started {
        reorder.AnchorAt(h.seqNo);
        NumberOfIff(reorder.q, t);
      }
      if !peerKnown {
        peerKnown := true;
      }
      TakeIn(h.seqNo, h.payload);
    }

    /** A datagram on the control socket: a resend response is buffered like the packet it wraps,
        anything else is dropped. */
    method HandleControl(pkt: Bytes)
      requires Valid()
      modifies this`played, this`log, reorder, reorder.slots
      ensures Valid() && Model() == Receive(old(Model()), Control(pkt))
    {
      if |pkt| < 2 {
        return;
      }
      if pkt[1] % 0x80 == RESEND_RESP_TYPE {
        var inner := Unwrap(pkt);
        if inner.None? {
          return;
        }
        var h := RtpParse(inner.value);
        if h.None? || h.value.payloadType != RTP_PT_AUDIO {
          return;
        }
        AnchorIfEmpty(reorder.q, NumberOf(reorder.q, h.value.seqNo));
        TakeIn(h.value.seqNo, h.value.payload);
      }
    }

    /** A datagram on either socket. */
    method Handle(d: Datagram, recent: bool) returns (request: Option<Bytes>)
      requires Valid()
      modifies this, reorder, reorder.slots
      ensures Valid() && Model() == Receive(old(Model()), d)
      ensures request.Some? <==> Asks(d, reorder.q, controlBound, old(Asked()), recent)
      ensures request.Some? ==> GoodRequest(reorder.q, request.value)
      ensures Asked() == if request.Some? then Some(Seq(reorder.q.next)) else old(Asked())
    {
      request := None;
      match d
      case Audio(bytes) => request := HandleAudio(bytes, recent);
      case Control(bytes) => HandleControl(bytes);
    }

    /** The receiving loop: datagrams as they come in on either socket, and the requests they cause. */
    method HandleAll(ds: seq<Datagram>, recent: seq<bool>)
      returns (requests: seq<Option<Bytes>>, ghost asked: seq<Option<nat>>)
      requires Valid() && |recent| == |ds|
      modifies this, reorder, reorder.slots
      ensures Valid() && Model() == ReceiveAll(old(Model()), ds)
      ensures |requests| == |ds| && |asked| == |ds| + 1 && asked[0] == old(Asked()) && asked[|ds|] == Asked()
      ensures forall i :: 0 <= i < |ds| ==>
        Answers(requests[i], ds[i], ReceiveAll(old(Model()), ds[..i + 1]).q, controlBound, asked[i], asked[i + 1],
                recent[i])
    {
      hide *;
      ghost var start := Model();
      requests, asked := [], [Asked()];
      StartsValid();
      assert ds[..0] == [];
      for i := 0 to |ds|
        invariant Valid() && Model() == ReceiveAll(start, ds[..i])
        invariant |requests| == i && |asked| == i + 1 && asked[0] == old(Asked()) && asked[i] == Asked()
        invariant forall j :: 0 <= j < i ==>
          Answers(requests[j], ds[j], ReceiveAll(start, ds[..j + 1]).q, controlBound, asked[j], asked[j + 1],
                  recent[j])
      {
        assert ds[..i + 1] == ds[..i] + [ds[i]];
        ReceiveSnoc(start, ds[..i], ds[i]);
        var request := Handle(ds[i], recent[i]);
        HowAnswered(request, ds[i], controlBound, asked[i], Asked(), recent[i]);
        requests, asked := requests + [request], asked + [Asked()];
      }
      assert ds[..|ds|] == ds;
    }

    lemma StartsValid()
      requires Valid()
      ensures Model().q.Valid() && ReceiveAll(Model(), []) == Model()
    {
    }

    lemma HowAnswered(request: Option<Bytes>, d: Datagram, bound: bool, was: Option<nat>, now: Option<nat>,
                      recent: bool)
      requires request.Some? <==> Asks(d, reorder.q, bound, was, recent)
      requires request.Some? ==> GoodRequest(reorder.q, request.value)
      requires now == if request.Some? then Some(Seq(reorder.q.next)) else was
      ensures Answers(request, d, Model().q, bound, was, now, recent)
    {
      hide Asks, GoodRequest;
    }

    /** Asks for the front gap unless it was asked for a moment ago. */
    method MaybeRequestResend(recent: bool) returns (request: Option<Bytes>)
      requires Valid()
      modifies this`resendFirst, this`resendValid
      ensures Valid()
      ensures request.Some? ==> GoodRequest(reorder.q, request.value)
      ensures request.Some? <==> peerKnown && controlBound && (exists count: nat :: GapIs(reorder.q, count))
                                 && !(recent && old(Asked()) == Some(Seq(reorder.q.next)))
      ensures Asked() == if request.Some? then Some(Seq(reorder.q.next)) else old(Asked())
    {
      request := None;
      if !peerKnown || !controlBound {
        return;
      }
      var found, first, missing := reorder.Gap();
      if !found {
        return;
      }
      assert GapIs(reorder.q, missing);
      if resendValid && first == resendFirst && recent {
        return;
      }
      RequestRoundTrip(first, missing);
      request := Some(ResendRequest(first, missing));
      resendFirst, resendValid := first, true;
    }
  }

  /** When a datagram makes the receiver ask for a resend: it is an audio packet, there is a control socket to
      ask on, packets are missing in front, and they are not what was asked for a moment ago. */
  ghost predicate Asks(d: Datagram, q: Queue, bound: bool, was: Option<nat>, recent: bool) {
    && d.Audio? && Carried(d).Some? && bound && (exists count: nat :: GapIs(q, count))
    && !(recent && was == Some(Seq(q.next)))
  }

  /** What a datagram is answered with, and what is then remembered as asked for. */
  ghost predicate Answers(request: Option<Bytes>, d: Datagram, q: Queue, bound: bool, was: Option<nat>,
                          now: Option<nat>, recent: bool) {
    && (request.Some? <==> Asks(d, q, bound, was, recent))
    && (request.Some? ==> GoodRequest(q, request.value))
    && now == if request.Some? then Some(Seq(q.next)) else was
  }

  /** The request names exactly the packets missing between the cursor and the first buffered one. */
  ghost predicate GoodRequest(q: Queue, request: Bytes) {
    && |request| == 8 && request[1] % 0x80 == 0x55 && request[2] == 0 && request[3] == 1
    && Be16(request[4..]) == Seq(q.next) && GapIs(q, Be16(request[6..]))
  }

  // ----- whole streams -----

  ghost function ReceiveAll(r: Receiver, ds: seq<Datagram>): (r': Receiver)
    requires r.q.Valid()
    ensures r'.q.Valid()
  {
    if ds == [] then r else Receive(ReceiveAll(r, ds[..|ds| - 1]), ds[|ds| - 1])
  }

  /** How a packet reached the receiver. */
  datatype Arrival = Arrival(number: int, resent: bool)

  /** The datagram of packet t of a stream, with the 16 bits of its number that the header has room
      for. Time stamp and source id do not matter, the payload does. */
  ghost function DatagramOf(a: Arrival, payload: int -> Bytes, stamp: int -> nat): Datagram {
    var pkt := AudioPacket(false, Seq(a.number), stamp(a.number), 0, payload(a.number));
    if a.resent then Control(ResendResponse(pkt)) else Audio(pkt)
  }

  ghost function Datagrams(arrivals: seq<Arrival>, payload: int -> Bytes, stamp: int -> nat): (ds: seq<Datagram>)
    ensures |ds| == |arrivals|
  {
    seq(|arrivals|, i requires 0 <= i < |arrivals| => DatagramOf(arrivals[i], payload, stamp))
  }

  function Numbers(arrivals: seq<Arrival>): (ts: seq<int>)
    ensures |ts| == |arrivals|
  {
    seq(|arrivals|, i requires 0 <= i < |arrivals| => arrivals[i].number)
  }

  /** What a datagram of the stream carries, sent directly or again. */
  lemma CarriedOf(a: Arrival, payload: int -> Bytes, stamp: int -> nat)
    requires stamp(a.number) < 0x1_0000_0000
    ensures var h := Carried(DatagramOf(a, payload, stamp));
            h.Some? && h.value.seqNo == Seq(a.number) && h.value.payload == payload(a.number)
  {
    SeqSplit(a.number);
    PacketRoundTrip(false, Seq(a.number), stamp(a.number), 0, payload(a.number));
    hide AudioPacket, ResendResponse, RtpParse, Unwrap, Seq;
  }

  /** On the wire a direct packet and its resend response are the same arrival, of the packet the
      sender numbered so when that is within half the sequence space of the cursor. */
  lemma WireArrival(r: Receiver, a: Arrival, payload: int -> Bytes, stamp: int -> nat)
    requires r.q.Valid() && r.q.started && stamp(a.number) < 0x1_0000_0000
    requires -0x8000 <= a.number - r.q.next < 0x8000
    ensures Receive(r, DatagramOf(a, payload, stamp)) == Arrive(r, a.number, payload(a.number))
  {
    CarriedOf(a, payload, stamp);
    NumberOfIff(r.q, a.number);
    hide Carried, DatagramOf, NumberOf, Seq, Arrive;
  }

  /** Each packet arrives while its number is within half the sequence space of the cursor. */
  ghost predicate WithinReach(start: Queue, ts: seq<int>, payload: int -> Bytes)
    requires start.Valid()
  {
    forall i :: 0 <= i < |ts| ==>
      -0x8000 <= ts[i] - ArriveAll(Receiver(start, []), ts[..i], payload).q.next < 0x8000
  }

  lemma ReachOfPrefix(start: Queue, ts: seq<int>, n: nat, payload: int -> Bytes)
    requires start.Valid() && WithinReach(start, ts, payload) && n <= |ts|
    ensures WithinReach(start, ts[..n], payload)
  {
    hide ArriveAll;
    forall i | 0 <= i < n
      ensures -0x8000 <= ts[..n][i] - ArriveAll(Receiver(start, []), ts[..n][..i], payload).q.next < 0x8000
    {
      assert ts[..n][..i] == ts[..i] && ts[..n][i] == ts[i];
    }
  }

  lemma ReceiveSnoc(r: Receiver, ds: seq<Datagram>, d: Datagram)
    requires r.q.Valid()
    ensures ReceiveAll(r, ds + [d]) == Receive(ReceiveAll(r, ds), d)
  {
    assert (ds + [d])[..|ds|] == ds;
    hide Receive;
  }

  lemma StreamSnoc(before: seq<Arrival>, a: Arrival, payload: int -> Bytes, stamp: int -> nat)
    ensures Numbers(before + [a]) == Numbers(before) + [a.number]
    ensures Datagrams(before + [a], payload, stamp)
         == Datagrams(before, payload, stamp) + [DatagramOf(a, payload, stamp)]
  {
    hide DatagramOf;
  }

  /** The 16 bits on the wire then stand for the sender's numbers, over any number of wraps. */
  lemma {:induction false} WireArrivals(start: Queue, arrivals: seq<Arrival>, payload: int -> Bytes, stamp: int -> nat)
    requires start.Valid() && start.started && WithinReach(start, Numbers(arrivals), payload)
    requires forall t :: stamp(t) < 0x1_0000_0000
    ensures var r := ArriveAll(Receiver(start, []), Numbers(arrivals), payload);
            ReceiveAll(Receiver(start, []), Datagrams(arrivals, payload, stamp)) == r && r.q.started
  {
    if arrivals == [] {
    } else {
      var n := |arrivals| - 1;
      var a, before := arrivals[n], arrivals[..n];
      assert arrivals == before + [a];
      StreamSnoc(before, a, payload, stamp);
      var ts := Numbers(before);
      var r := ArriveAll(Receiver(start, []), ts, payload);
      assert Numbers(arrivals)[..n] == ts;
      ReachOfPrefix(start, Numbers(arrivals), n, payload);
      assert -0x8000 <= a.number - r.q.next < 0x8000;
      hide Receive, Arrive, ReceiveAll, ArriveAll, DatagramOf, WithinReach, Numbers, Datagrams;
      WireArrivals(start, before, payload, stamp);
      WireArrival(r, a, payload, stamp);
      ArriveAdvances(r, a.number, payload(a.number));
      ReceiveSnoc(Receiver(start, []), Datagrams(before, payload, stamp), DatagramOf(a, payload, stamp));
      ArriveSnoc(Receiver(start, []), ts, a.number, payload);
    }
  }

  /** On the wire, too: within reach of the cursor every number it passes is played as its own packet or
      concealed, whatever is lost, late, doubled or resent. */
  lemma StreamIsAccounted(start: Queue, arrivals: seq<Arrival>, n: nat, payload: int -> Bytes, stamp: int -> nat)
    requires start.Valid() && start.started && start.pending == map[] && n <= |arrivals|
    requires WithinReach(start, Numbers(arrivals), payload) && forall t :: stamp(t) < 0x1_0000_0000
    ensures Accounts(ReceiveAll(Receiver(start, []), Datagrams(arrivals, payload, stamp)[..n]), start.next,
                     Numbers(arrivals)[..n], payload)
  {
    assert Numbers(arrivals)[..n] == Numbers(arrivals[..n]);
    assert Datagrams(arrivals, payload, stamp)[..n] == Datagrams(arrivals[..n], payload, stamp);
    hide *;
    ReachOfPrefix(start, Numbers(arrivals), n, payload);
    WireArrivals(start, arrivals[..n], payload, stamp);
    EveryNumberAccounted(start, Numbers(arrivals[..n]), payload);
  }

  /** A datagram takes nothing back that has been played. */
  lemma ReceiveExtends(r: Receiver, d: Datagram)
    requires r.q.Valid()
    ensures r.played <= Receive(r, d).played
  {
    hide Carried, NumberOf, Drain;
  }

  /** No packet arrives half the sequence space or more behind one already in. */
  ghost predicate NotStale(ts: seq<int>, first: int) {
    forall i :: 0 <= i < |ts| ==>
      first - ts[i] <= 0x8000 && forall j :: 0 <= j < i ==> ts[j] - ts[i] < 0x8000
  }

  /** Bounded reordering without stale packets keeps every arrival within reach of the cursor. */
  lemma ReorderWithinReach(start: Queue, ts: seq<int>, payload: int -> Bytes)
    requires start.Valid() && start.started && start.pending == map[] && start.window <= 0x8000
    requires BoundedReorder(ts, start.next, start.hold) && NotStale(ts, start.next)
    requires forall t :: t in ts ==> 0 < |payload(t)| <= MAX_PKT
    ensures WithinReach(start, ts, payload)
  {
    forall i | 0 <= i < |ts|
      ensures -0x8000 <= ts[i] - ArriveAll(Receiver(start, []), ts[..i], payload).q.next < 0x8000
    {
      ReorderOfPrefix(ts, start.next, start.hold, i);
      Overdue(ts, start.next, start.hold, i);
      InOrderDelivery(start, ts[..i], payload);
      hide ArriveAll;
      var next := ArriveAll(Receiver(start, []), ts[..i], payload).q.next;
      assert start.next < next ==> next - 1 in ts[..i];
    }
  }

  /** Loss repaired on the control channel, duplicates and bounded reordering leave no trace in
      what is played, over any number of wraps of the 16-bit numbers. */
  lemma StreamIsInOrder(start: Queue, arrivals: seq<Arrival>, payload: int -> Bytes, stamp: int -> nat)
    requires start.Valid() && start.started && start.pending == map[] && start.window <= 0x8000
    requires BoundedReorder(Numbers(arrivals), start.next, start.hold) && NotStale(Numbers(arrivals), start.next)
    requires forall t :: stamp(t) < 0x1_0000_0000 && 0 < |payload(t)| <= MAX_PKT
    ensures
      var r := ReceiveAll(Receiver(start, []), Datagrams(arrivals, payload, stamp));
      && r.q.next !in Numbers(arrivals) && (forall t :: start.next <= t < r.q.next ==> t in Numbers(arrivals))
      && |r.played| == r.q.next - start.next
      && forall i :: 0 <= i < |r.played| ==> r.played[i] == Ok(start.next + i, payload(start.next + i))
  {
    hide ReceiveAll, ArriveAll, BoundedReorder, NotStale, WithinReach, Numbers, Datagrams;
    ReorderWithinReach(start, Numbers(arrivals), payload);
    WireArrivals(start, arrivals, payload, stamp);
    InOrderDelivery(start, Numbers(arrivals), payload);
  }

  // ----- stalling -----

  /** The datagram carries a payload whose sequence number is in the window that starts at `next`. */
  predicate InWindow(d: Datagram, next: nat, window: nat) {
    var h := Carried(d);
    h.Some? && 0 < |h.value.payload| <= MAX_PKT && SeqDiff(h.value.seqNo, next) < window
  }

  /** The number a sequence number stands for is in the window exactly when the 16-bit distance from
      the cursor is less than the window. */
  lemma WindowIff(q: Queue, seqNo: nat)
    requires seqNo < SEQ_SPACE && q.window <= 0x8000
    ensures q.next <= NumberOf(q, seqNo) < q.next + q.window <==> SeqDiff(seqNo, Seq(q.next)) < q.window
  {
    var t := NumberOf(q, seqNo);
    NumberOfSeq(q, seqNo);
    if t >= q.next {
      SeqDiffExact(t, q.next);
    } else {
      SeqDiffExact(t + SEQ_SPACE, q.next);
      ModShift(t, 1, SEQ_SPACE);
    }
  }

  lemma OneDatagram(start: Queue, d: Datagram)
    requires start.Valid() && start.started && start.pending == map[] && start.window <= 0x8000
    ensures var r := Receive(Receiver(start, []), d);
      && r.q.started
      && if InWindow(d, Seq(start.next), start.window) then r.q.head > start.head else r == Receiver(start, [])
  {
    var h := Carried(d);
    if h.Some? {
      var t := NumberOf(start, h.value.seqNo);
      hide Carried, NumberOf, SeqDiff, Seq;
      WindowIff(start, h.value.seqNo);
      ArriveAdvances(Receiver(start, []), t, h.value.payload);
      if 0 < |h.value.payload| <= MAX_PKT {
        OneArrival(start, t, h.value.payload);
      } else {
        DrainStep(start);
      }
    }
  }

  lemma ReceiveAdvances(r: Receiver, d: Datagram)
    requires r.q.Valid() && r.q.started
    ensures Receive(r, d).q.started && Receive(r, d).q.head >= r.q.head
  {
    hide Carried, NumberOf;
    if Carried(d).Some? {
      ArriveAdvances(r, NumberOf(r.q, Carried(d).value.seqNo), Carried(d).value.payload);
    }
  }

  /** A drained buffer takes a packet in a run of datagrams exactly when one of them carries a payload
      whose 16-bit distance from the cursor is less than the window. */
  lemma {:induction false} TakesIff(start: Queue, ds: seq<Datagram>)
    requires start.Valid() && start.started && start.pending == map[] && start.window <= 0x8000
    ensures var r := ReceiveAll(Receiver(start, []), ds);
      && r.q.started
      && if exists d :: d in ds && InWindow(d, Seq(start.next), start.window) then r.q.head > start.head
         else r == Receiver(start, [])
  {
    if ds == [] {
    } else {
      var before, d := ds[..|ds| - 1], ds[|ds| - 1];
      assert ds == before + [d];
      TakesIff(start, before);
      hide Receive, InWindow;
      OneDatagram(start, d);
      ReceiveAdvances(ReceiveAll(Receiver(start, []), before), d);
    }
  }

  /** The datagram's payload moves a cursor at `next` on: it is the packet there, or so far beyond that what
      is missing before it is given up. */
  predicate PlaysOn(d: Datagram, next: nat, window: nat, hold: nat) {
    && InWindow(d, next, window)
    && (SeqDiff(Carried(d).value.seqNo, next) == 0 || SeqDiff(Carried(d).value.seqNo, next) >= hold)
  }

  /** Inside the window the 16-bit distance is the distance of the numbers. */
  lemma WindowDistance(q: Queue, seqNo: nat)
    requires seqNo < SEQ_SPACE && q.window <= 0x8000
    ensures SeqDiff(seqNo, Seq(q.next)) < q.window ==> NumberOf(q, seqNo) == q.next + SeqDiff(seqNo, Seq(q.next))
  {
    WindowIff(q, seqNo);
    NumberOfSeq(q, seqNo);
    if SeqDiff(seqNo, Seq(q.next)) < q.window {
      SeqDiffExact(NumberOf(q, seqNo), q.next);
    }
  }

  /** Whatever is in the window and not buffered is taken for the number that far beyond the cursor. */
  lemma ReceiveSettled(r: Receiver, d: Datagram)
    requires Settled(r.q) && r.q.window <= 0x8000
    ensures var r' := Receive(r, d);
      && Settled(r'.q) && r'.q.window == r.q.window && r'.q.hold == r.q.hold
      && if PlaysOn(d, Seq(r.q.next), r.q.window, r.q.hold) then r'.q.next > r.q.next && r.played < r'.played
         else r'.q.next == r.q.next && r'.played == r.played
  {
    var h := Carried(d);
    if h.Some? {
      var t := NumberOf(r.q, h.value.seqNo);
      WindowIff(r.q, h.value.seqNo);
      WindowDistance(r.q, h.value.seqNo);
      hide Carried, NumberOf, SeqDiff, Seq, Arrive;
      if 0 < |h.value.payload| <= MAX_PKT {
        ArriveSettled(r, t, h.value.payload);
      } else {
        NothingArrives(r, t, h.value.payload);
      }
    }
  }

  lemma NothingArrives(r: Receiver, t: int, data: Bytes)
    requires Settled(r.q) && (data == [] || |data| > MAX_PKT)
    ensures Arrive(r, t, data) == r
  {
    DrainSettles(r.q);
    hide Drain;
    assert r.played + [] == r.played;
  }

  /** From any state between two datagrams, with a gap in front or without, a run of datagrams plays
      something exactly when one of them carries the packet at the cursor, or one in the window that is the
      hold distance or more beyond it. Otherwise what has been played stays as it is. */
  lemma {:induction false} ProgressIff(r: Receiver, ds: seq<Datagram>)
    requires Settled(r.q) && r.q.window <= 0x8000
    ensures var r' := ReceiveAll(r, ds);
      && Settled(r'.q) && r'.q.window == r.q.window && r'.q.hold == r.q.hold
      && if exists d :: d in ds && PlaysOn(d, Seq(r.q.next), r.q.window, r.q.hold)
         then r'.q.next > r.q.next && r.played < r'.played
         else r'.q.next == r.q.next && r'.played == r.played
  {
    if ds == [] {
    } else {
      var before, d := ds[..|ds| - 1], ds[|ds| - 1];
      assert ds == before + [d];
      ProgressIff(r, before);
      hide Receive, PlaysOn, Settled, Seq;
      ReceiveSettled(ReceiveAll(r, before), d);
    }
  }

  /** A packet that leaves one or more missing in front of it, but fewer than the hold distance, is held and
      makes the receiver ask for exactly those. */
  lemma LossIsAskedFor(r: Receiver, d: Datagram, was: Option<nat>, recent: bool)
    requires Settled(r.q) && r.q.pending == map[] && r.q.window <= 0x8000
    requires d.Audio? && InWindow(d, Seq(r.q.next), r.q.window)
    requires 0 < SeqDiff(Carried(d).value.seqNo, Seq(r.q.next)) < r.q.hold
    requires !(recent && was == Some(Seq(r.q.next)))
    ensures var r' := Receive(r, d);
      && r'.played == r.played && r'.q.next == r.q.next
      && GapIs(r'.q, SeqDiff(Carried(d).value.seqNo, Seq(r.q.next))) && Asks(d, r'.q, true, was, recent)
  {
    var h := Carried(d).value;
    WindowIff(r.q, h.seqNo);
    WindowDistance(r.q, h.seqNo);
    SettledParts(r.q);
    ArriveSettled(r, NumberOf(r.q, h.seqNo), h.payload);
    hide Carried, NumberOf, SeqDiff, Seq, Arrive, Queue.Valid;
    assert GapIs(Receive(r, d).q, SeqDiff(h.seqNo, Seq(r.q.next)));
  }

  /** The first audio packet is the first one played, whatever its number; without a payload only the cursor is
      set. */
  lemma FirstIsPlayed(q: Queue, d: Datagram)
    requires q.Valid() && !q.started && d.Audio? && Carried(d).Some?
    ensures var h, r := Carried(d).value, Receive(Receiver(q, []), d);
      && r.q.started && r.q.pending == map[]
      && if 0 < |h.payload| <= MAX_PKT then
           Seq(r.q.next - 1) == h.seqNo && r.played == [Ok(r.q.next - 1, h.payload)]
         else Seq(r.q.next) == h.seqNo && r.played == []
  {
    var h := Carried(d).value;
    var t := NumberOf(q, h.seqNo);
    NumberOfSeq(q, h.seqNo);
    AnchorIfEmpty(q, t);
    hide Carried, NumberOf, Seq;
    FirstArrives(q.Anchor(t), t, h.payload);
  }

  lemma FirstArrives(q: Queue, t: int, data: Bytes)
    requires q.Valid() && q.started && q.pending == map[] && q.next == t
    ensures var r := Arrive(Receiver(q, []), t, data);
      && r.q.started && r.q.pending == map[]
      && if 0 < |data| <= MAX_PKT then r.q.next == t + 1 && r.played == [Ok(t, data)]
         else r.q.next == t && r.played == []
  {
    var q1 := q.Insert(t, data).0;
    q.InsertValid(t, data);
    DrainStep(q1);
    var q2 := q1.Pop().0;
    q1.PopValid();
    DrainStep(q2);
    hide Drain;
    assert [] + [Ok(t, data)] == [Ok(t, data)];
  }

  /** A receiver stalls for good without an outage: one packet is lost, the next one arrives, and everything
      after it is beyond the window. Nothing is ever played, though the buffer holds a packet. */
  lemma StallingRun(start: Queue, second: Datagram, tail: seq<Datagram>)
    requires Settled(start) && start.pending == map[] && 2 <= start.hold && start.window <= 0x8000
    requires InWindow(second, Seq(start.next), start.window)
    requires SeqDiff(Carried(second).value.seqNo, Seq(start.next)) == 1
    requires forall d :: d in tail ==> !InWindow(d, Seq(start.next), start.window)
    ensures var r := ReceiveAll(Receiver(start, []), [second] + tail);
            r.q.head > start.head && r.q.next == start.next && r.played == []
  {
    TakesIff(start, [second] + tail);
    ProgressIff(Receiver(start, []), [second] + tail);
    hide ReceiveAll, InWindow, Settled;
    assert second in [second] + tail;
  }

  /** A packet from behind the cursor, however old: it is dropped exactly when its 16-bit distance from the
      cursor is beyond the window or the packet that distance ahead is in. Otherwise its bytes are stored as
      that packet. */
  lemma StaleDuplicate(r: Receiver, t: int, resent: bool, payload: int -> Bytes, stamp: int -> nat)
    requires Settled(r.q) && r.q.window <= 0x8000 && t < r.q.next
    requires stamp(t) < 0x1_0000_0000 && 0 < |payload(t)| <= MAX_PKT
    ensures var ahead := SeqDiff(Seq(t), Seq(r.q.next));
      var r' := Receive(r, DatagramOf(Arrival(t, resent), payload, stamp));
      && (r' == r <==> ahead >= r.q.window || r.q.next + ahead in r.q.pending)
      && (ahead < r.q.window ==>
            r' == Arrive(r, r.q.next + ahead, payload(t)) && r.q.next + ahead != t && Seq(r.q.next + ahead) == Seq(t))
  {
    hide *;
    CarriedOf(Arrival(t, resent), payload, stamp);
    SeqSplit(t);
    SettledParts(r.q);
    WindowIff(r.q, Seq(t));
    WindowDistance(r.q, Seq(t));
    NumberOfSeq(r.q, Seq(t));
    ReceiveIs(r, DatagramOf(Arrival(t, resent), payload, stamp));
    ArriveSettled(r, NumberOf(r.q, Seq(t)), payload(t));
  }

  lemma SettledParts(q: Queue)
    requires Settled(q)
    ensures q.Valid() && q.started
  {
  }

  lemma ReceiveIs(r: Receiver, d: Datagram)
    requires r.q.Valid() && r.q.started && Carried(d).Some?
    ensures Receive(r, d) == Arrive(r, NumberOf(r.q, Carried(d).value.seqNo), Carried(d).value.payload)
  {
    hide Carried, NumberOf, Arrive;
  }
}
