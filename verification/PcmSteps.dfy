/** The PCM ring under concurrency: producer and consumer as interleaved steps, one index load, one
    frame copied or one index published at a time. */
module PcmSteps {
  import opened PcmRing

  /** The producer between two of its steps: idle, or copying n accepted frames from write index
      `head0` on with `done` copied. */
  datatype Producer = PIdle | PCopying(frames: seq<Frame>, head0: nat, done: nat)

  /** The consumer: idle, copying out `want` frames, about to publish a drop, or about to look at
      the oldest frame. */
  datatype Consumer =
    | CIdle | CCopying(tail0: nat, want: nat, out: seq<Frame>) | CDropping(tail0: nat, m: nat) | CPeeking

  /** The shared ring, both tasks, and for the record: the frames published, how many of them were
      consumed, and what the reads, drops and looks of the consumer returned. */
  datatype State = State(
    capacity: nat, storage: seq<Frame>, head: nat, tail: nat,
    producer: Producer, consumer: Consumer,
    written: seq<Frame>, consumed: nat, taken: seq<Frame>, peeked: seq<(nat, Frame)>)

  datatype Action =
    | StartWrite(frames: seq<Frame>) | CopyIn | PublishWrite
    | StartRead(n: nat) | CopyOut | PublishRead
    | StartDrop(n: nat) | PublishDrop
    | StartPeek | Peek

  function Smaller(a: int, b: int): int {
    if a < b then a else b
  }

  predicate WellSized(s: State) {
    s.capacity >= 1 && |s.storage| == s.capacity && s.head < s.capacity && s.tail < s.capacity
  }

  /** One step; an action that is not enabled changes nothing. */
  function Step(s: State, a: Action): State
    requires WellSized(s)
  {
    var avail := Distance(s.head, s.tail, s.capacity);
    match a
    case StartWrite(frames) =>
      // loads the read index once; the free space computed from it is used until the write ends
      var n := Smaller(|frames|, s.capacity - 1 - avail);
      if s.producer.PIdle? && n > 0 then s.(producer := PCopying(frames[..n], s.head, 0)) else s
    case CopyIn =>
      if s.producer.PCopying? && s.producer.done < |s.producer.frames| && s.producer.head0 < s.capacity
         && s.producer.done < s.capacity then
        var p := s.producer;
        s.(storage := s.storage[Advance(p.head0, p.done, s.capacity) := p.frames[p.done]],
           producer := p.(done := p.done + 1))
      else s
    case PublishWrite =>
      if s.producer.PCopying? && s.producer.done == |s.producer.frames| < s.capacity
         && s.producer.head0 < s.capacity then
        s.(head := Advance(s.producer.head0, s.producer.done, s.capacity),
           written := s.written + s.producer.frames, producer := PIdle)
      else s
    case StartRead(n) =>
      var m := Smaller(n, avail);
      if s.consumer.CIdle? && m > 0 then s.(consumer := CCopying(s.tail, m, [])) else s
    case CopyOut =>
      if s.consumer.CCopying? && |s.consumer.out| < s.consumer.want && s.consumer.tail0 < s.capacity
         && |s.consumer.out| < s.capacity then
        var c := s.consumer;
        s.(consumer := c.(out := c.out + [s.storage[Advance(c.tail0, |c.out|, s.capacity)]]))
      else s
    case PublishRead =>
      if s.consumer.CCopying? && |s.consumer.out| == s.consumer.want < s.capacity && s.consumer.tail0 < s.capacity then
        s.(tail := Advance(s.consumer.tail0, s.consumer.want, s.capacity),
           consumed := s.consumed + s.consumer.want, taken := s.taken + s.consumer.out, consumer := CIdle)
      else s
    case StartDrop(n) =>
      if s.consumer.CIdle? then s.(consumer := CDropping(s.tail, if avail < 0 then 0 else Smaller(n, avail))) else s
    case PublishDrop =>
      if s.consumer.CDropping? && s.consumer.tail0 < s.capacity && s.consumer.m < s.capacity
         && s.consumed + s.consumer.m <= |s.written| then
        s.(tail := Advance(s.consumer.tail0, s.consumer.m, s.capacity),
           consumed := s.consumed + s.consumer.m,
           taken := s.taken + s.written[s.consumed..s.consumed + s.consumer.m], consumer := CIdle)
      else s
    case StartPeek =>
      if s.consumer.CIdle? && avail != 0 then s.(consumer := CPeeking) else s
    case Peek =>
      if s.consumer.CPeeking? then
        s.(consumer := CIdle, peeked := s.peeked + [(s.consumed, s.storage[s.tail])])
      else s
  }

  ghost function Run(s: State, acts: seq<Action>): (s': State)
    requires Safe(s)
    ensures Safe(s')
  {
    if acts == [] then s
    else
      var before := Run(s, acts[..|acts| - 1]);
      StepSafe(before, acts[|acts| - 1]);
      Step(before, acts[|acts| - 1])
  }

  // ----- what holds in every state -----

  /** Indices, counters and slots agree; unread published frames are intact. */
  ghost predicate RingInvariant(s: State) {
    && WellSized(s)
    && s.consumed <= |s.written| < s.consumed + s.capacity
    && s.head == |s.written| % s.capacity && s.tail == s.consumed % s.capacity
    && forall i {:trigger s.written[i]} :: s.consumed <= i < |s.written| ==> s.storage[i % s.capacity] == s.written[i]
  }

  /** The producer's idea of the free space only under-reports it, so what it fills is free of
      unread frames, and what it has filled is there. */
  ghost predicate ProducerInvariant(s: State)
    requires RingInvariant(s)
  {
    s.producer.PCopying? ==>
      var p := s.producer;
      && p.head0 == s.head && p.done <= |p.frames| && |p.frames| > 0
      && |s.written| + |p.frames| < s.consumed + s.capacity
      && forall k {:trigger p.frames[k]} :: 0 <= k < p.done ==> s.storage[(|s.written| + k) % s.capacity] == p.frames[k]
  }

  /** The consumer's idea of the fill only under-reports it, so what it copies is published. */
  ghost predicate ConsumerInvariant(s: State)
    requires RingInvariant(s)
  {
    match s.consumer
    case CIdle => true
    case CCopying(tail0, want, out) =>
      && tail0 == s.tail && |out| <= want && s.consumed + want <= |s.written|
      && out == s.written[s.consumed..s.consumed + |out|]
    case CDropping(tail0, m) => tail0 == s.tail && s.consumed + m <= |s.written|
    case CPeeking => s.consumed < |s.written|
  }

  /** Everything the consumer ever got is what was written, in order, nothing skipped or doubled. */
  ghost predicate RecordInvariant(s: State)
    requires s.consumed <= |s.written|
  {
    && s.taken == s.written[..s.consumed]
    && forall k :: 0 <= k < |s.peeked| ==> s.peeked[k].0 < |s.written| && s.peeked[k].1 == s.written[s.peeked[k].0]
  }

  ghost predicate Safe(s: State) {
    RingInvariant(s) && ProducerInvariant(s) && ConsumerInvariant(s) && RecordInvariant(s)
  }

  /** Where the producer is about to write. */
  ghost predicate Writing(s: State, slot: nat)
    requires WellSized(s)
  {
    && s.producer.PCopying? && s.producer.done < |s.producer.frames|
    && slot == Advance(s.producer.head0, s.producer.done, s.capacity)
  }

  /** Where the consumer is about to read, and the number of the frame it is owed. */
  ghost predicate Reading(s: State, slot: nat, number: nat)
    requires WellSized(s)
  {
    || (s.consumer.CCopying? && |s.consumer.out| < s.consumer.want
        && slot == Advance(s.consumer.tail0, |s.consumer.out|, s.capacity) && number == s.consumed + |s.consumer.out|)
    || (s.consumer.CPeeking? && slot == s.tail && number == s.consumed)
  }

  /** In every safe state the two sides touch different slots: the producer none that holds an
      unread frame, the consumer only the published frame it is owed. */
  lemma NoConflict(s: State, w: nat, r: nat, number: nat)
    requires Safe(s)
    ensures Writing(s, w) ==> forall i :: s.consumed <= i < |s.written| ==> i % s.capacity != w
    ensures Reading(s, r, number) ==>
      s.consumed <= number < |s.written| && r < s.capacity && s.storage[r] == s.written[number]
    ensures Writing(s, w) && Reading(s, r, number) ==> w != r
  {
    if Writing(s, w) {
      AdvanceMod(|s.written|, s.producer.done, s.capacity);
      forall i | s.consumed <= i < |s.written|
        ensures i % s.capacity != w
      {
        SlotsApart(i, |s.written| + s.producer.done, s.capacity);
      }
    }
    if Reading(s, r, number) {
      AdvanceMod(s.consumed, number - s.consumed, s.capacity);
      assert s.storage[number % s.capacity] == s.written[number];
    }
  }

  /** The state after a frame is copied in. */
  function CopiedIn(s: State): State
    requires WellSized(s) && s.producer.PCopying? && s.producer.done < |s.producer.frames|
    requires s.producer.head0 < s.capacity && s.producer.done < s.capacity
  {
    var p := s.producer;
    s.(storage := s.storage[Advance(p.head0, p.done, s.capacity) := p.frames[p.done]],
       producer := p.(done := p.done + 1))
  }

  lemma CopyInRing(s: State)
    requires Safe(s) && s.producer.PCopying? && s.producer.done < |s.producer.frames|
    ensures RingInvariant(CopiedIn(s))
  {
    var p, s' := s.producer, CopiedIn(s);
    var slot := Advance(p.head0, p.done, s.capacity);
    NoConflict(s, slot, 0, 0);
    hide ProducerInvariant, ConsumerInvariant, RecordInvariant, Advance;
    forall i {:trigger s.written[i]} | s.consumed <= i < |s.written|
      ensures s'.storage[i % s.capacity] == s.written[i]
    {
      assert i % s.capacity != slot;
    }
  }

  lemma CopyInProducer(s: State)
    requires Safe(s) && s.producer.PCopying? && s.producer.done < |s.producer.frames|
    requires RingInvariant(CopiedIn(s))
    ensures ProducerInvariant(CopiedIn(s))
  {
    var p, s' := s.producer, CopiedIn(s);
    AdvanceMod(|s.written|, p.done, s.capacity);
    hide ConsumerInvariant, RecordInvariant, Advance;
    forall k {:trigger p.frames[k]} | 0 <= k < p.done + 1
      ensures s'.storage[(|s.written| + k) % s.capacity] == p.frames[k]
    {
      if k < p.done {
        SlotsApart(|s.written| + k, |s.written| + p.done, s.capacity);
      }
    }
  }

  lemma CopyInSafe(s: State)
    requires Safe(s)
    ensures Safe(Step(s, CopyIn))
  {
    if s.producer.PCopying? && s.producer.done < |s.producer.frames| {
      CopyInRing(s);
      CopyInProducer(s);
      assert Step(s, CopyIn) == CopiedIn(s);
      hide Step, RingInvariant, ProducerInvariant, Advance;
    }
  }

  lemma PublishWriteSafe(s: State)
    requires Safe(s)
    ensures Safe(Step(s, PublishWrite))
  {
    if s.producer.PCopying? && s.producer.done == |s.producer.frames| {
      PublishWriteRing(s);
      PublishWriteRest(s);
    }
    hide Step, RingInvariant, ProducerInvariant, ConsumerInvariant, RecordInvariant;
  }

  lemma PublishWriteRing(s: State)
    requires Safe(s) && s.producer.PCopying? && s.producer.done == |s.producer.frames|
    ensures RingInvariant(Step(s, PublishWrite))
  {
    AdvanceMod(|s.written|, s.producer.done, s.capacity);
    AllInSlots(s.storage, s.written, s.consumed, s.producer.frames);
    hide ConsumerInvariant, RecordInvariant, Advance, Distance;
  }

  lemma AllInSlots(storage: seq<Frame>, written: seq<Frame>, consumed: nat, frames: seq<Frame>)
    requires storage != []
    requires forall i {:trigger written[i]} :: consumed <= i < |written| ==> storage[i % |storage|] == written[i]
    requires forall k {:trigger frames[k]} :: 0 <= k < |frames| ==>
      storage[(|written| + k) % |storage|] == frames[k]
    ensures var all := written + frames;
      forall i {:trigger all[i]} :: consumed <= i < |all| ==> storage[i % |storage|] == all[i]
  {
    var all := written + frames;
    forall i {:trigger all[i]} | consumed <= i < |all|
      ensures storage[i % |storage|] == all[i]
    {
      if i < |written| {
        assert all[i] == written[i];
      } else {
        assert all[i] == frames[i - |written|];
      }
    }
  }

  /** The reader's side and the records see a longer stream, no other. */
  lemma PublishWriteRest(s: State)
    requires Safe(s) && s.producer.PCopying? && s.producer.done == |s.producer.frames|
    requires RingInvariant(Step(s, PublishWrite))
    ensures ProducerInvariant(Step(s, PublishWrite)) && ConsumerInvariant(Step(s, PublishWrite))
    ensures RecordInvariant(Step(s, PublishWrite))
  {
    hide Advance, Distance;
    assert (s.written + s.producer.frames)[..s.consumed] == s.written[..s.consumed];
    if s.consumer.CCopying? {
      var upTo := s.consumed + |s.consumer.out|;
      assert (s.written + s.producer.frames)[s.consumed..upTo] == s.written[s.consumed..upTo];
    }
  }

  lemma CopyOutSafe(s: State)
    requires Safe(s)
    ensures Safe(Step(s, CopyOut))
  {
    if s.consumer.CCopying? && |s.consumer.out| < s.consumer.want {
      var c := s.consumer;
      NoConflict(s, 0, Advance(c.tail0, |c.out|, s.capacity), s.consumed + |c.out|);
    }
  }

  lemma PublishReadSafe(s: State)
    requires Safe(s)
    ensures Safe(Step(s, PublishRead))
  {
    if s.consumer.CCopying? && |s.consumer.out| == s.consumer.want {
      AdvanceMod(s.consumed, s.consumer.want, s.capacity);
      assert s.written[..s.consumed + s.consumer.want]
          == s.written[..s.consumed] + s.written[s.consumed..s.consumed + s.consumer.want];
    }
  }

  lemma PublishDropSafe(s: State)
    requires Safe(s)
    ensures Safe(Step(s, PublishDrop))
  {
    if s.consumer.CDropping? {
      AdvanceMod(s.consumed, s.consumer.m, s.capacity);
      assert s.written[..s.consumed + s.consumer.m]
          == s.written[..s.consumed] + s.written[s.consumed..s.consumed + s.consumer.m];
    }
  }

  /** Every step of either side keeps the ring safe. */
  lemma StepSafe(s: State, a: Action)
    requires Safe(s)
    ensures Safe(Step(s, a))
  {
    hide *;
    match a
    case CopyIn => CopyInSafe(s);
    case PublishWrite => PublishWriteSafe(s);
    case CopyOut => CopyOutSafe(s);
    case PublishRead => PublishReadSafe(s);
    case PublishDrop => PublishDropSafe(s);
    case Peek => PeekSafe(s);
    case StartWrite(_) => StartSafe(s, a);
    case StartRead(_) => StartSafe(s, a);
    case StartDrop(_) => StartSafe(s, a);
    case StartPeek => StartSafe(s, a);
  }

  lemma PeekSafe(s: State)
    requires Safe(s)
    ensures Safe(Step(s, Peek))
  {
    if s.consumer.CPeeking? {
      NoConflict(s, 0, s.tail, s.consumed);
      hide ProducerInvariant;
    }
  }

  /** What a task computes from one index load holds until it publishes. */
  lemma StartSafe(s: State, a: Action)
    requires Safe(s) && (a.StartWrite? || a.StartRead? || a.StartDrop? || a.StartPeek?)
    ensures Safe(Step(s, a))
  {
    DistanceExact(|s.written|, s.consumed, s.capacity);
    hide Distance, Advance;
  }

  /** The bounds written into the steps never hold a task up: what it is in the middle of, it can go
      on with. */
  lemma NeverBlocked(s: State)
    requires Safe(s)
    ensures s.producer.PCopying? ==>
      if s.producer.done < |s.producer.frames| then
        Step(s, CopyIn).producer == s.producer.(done := s.producer.done + 1)
      else Step(s, PublishWrite).producer == PIdle && Step(s, PublishWrite).written == s.written + s.producer.frames
    ensures s.consumer.CCopying? ==>
      if |s.consumer.out| < s.consumer.want then
        |Step(s, CopyOut).consumer.out| == |s.consumer.out| + 1
      else Step(s, PublishRead).consumer == CIdle && Step(s, PublishRead).consumed == s.consumed + s.consumer.want
    ensures s.consumer.CDropping? ==>
      Step(s, PublishDrop).consumer == CIdle && Step(s, PublishDrop).consumed == s.consumed + s.consumer.m
  {
  }

  /** What an operation comes to, by the queue as it is when the index is loaded: a write accepts what fits
      under capacity - 1, a read or a drop takes as many as there are, a look sees the oldest frame if there
      is one. */
  lemma AmountsExactly(s: State, n: nat, frames: seq<Frame>)
    requires Safe(s)
    ensures s.producer.PIdle? ==>
      var room := s.capacity - 1 - |Fifo(s)|;
      var accepted := if |frames| < room then |frames| else room;
      Step(s, StartWrite(frames)).producer == if accepted > 0 then PCopying(frames[..accepted], s.head, 0) else PIdle
    ensures s.consumer.CIdle? ==>
      var there := if n < |Fifo(s)| then n else |Fifo(s)|;
      && (Step(s, StartRead(n)).consumer == if there > 0 then CCopying(s.tail, there, []) else CIdle)
      && Step(s, StartDrop(n)).consumer == CDropping(s.tail, there)
      && (Step(s, StartPeek).consumer == if Fifo(s) != [] then CPeeking else CIdle)
    ensures s.consumer.CPeeking? ==>
      Fifo(s) != [] && Step(s, Peek).consumer == CIdle && Step(s, Peek).peeked == s.peeked + [(s.consumed, Fifo(s)[0])]
  {
    DistanceExact(|s.written|, s.consumed, s.capacity);
    if s.consumer.CPeeking? {
      NoConflict(s, 0, s.tail, s.consumed);
    }
    hide Distance, Advance, ProducerInvariant, RecordInvariant;
  }

  /** What is published is what was accepted or copied. */
  lemma PublishesExactly(s: State)
    requires Safe(s)
    ensures s.producer.PCopying? && s.producer.done == |s.producer.frames| ==>
      Fifo(Step(s, PublishWrite)) == Fifo(s) + s.producer.frames
    ensures s.consumer.CCopying? && |s.consumer.out| == s.consumer.want ==>
      s.consumer.want <= |Fifo(s)|
      && Fifo(Step(s, PublishRead)) == Fifo(s)[s.consumer.want..]
      && Step(s, PublishRead).taken == s.taken + Fifo(s)[..s.consumer.want]
    ensures s.consumer.CDropping? ==>
      s.consumer.m <= |Fifo(s)| && Fifo(Step(s, PublishDrop)) == Fifo(s)[s.consumer.m..]
  {
    if s.producer.PCopying? && s.producer.done == |s.producer.frames| {
      Appends(s);
    }
    if s.consumer.CCopying? && |s.consumer.out| == s.consumer.want {
      ReadTakes(s);
    }
    if s.consumer.CDropping? {
      DropTakes(s);
    }
    hide Step, Safe, Fifo;
  }

  lemma ReadTakes(s: State)
    requires Safe(s) && s.consumer.CCopying? && |s.consumer.out| == s.consumer.want
    ensures var s', n := Step(s, PublishRead), s.consumer.want;
      && s'.consumed <= |s'.written| && n <= |Fifo(s)|
      && Fifo(s') == Fifo(s)[n..] && s'.taken == s.taken + Fifo(s)[..n]
  {
    hide Advance, Distance;
    TakenOff(s.written, s.consumed, s.consumer.want);
  }

  lemma DropTakes(s: State)
    requires Safe(s) && s.consumer.CDropping?
    ensures var s', n := Step(s, PublishDrop), s.consumer.m;
      && s'.consumed <= |s'.written| && n <= |Fifo(s)| && Fifo(s') == Fifo(s)[n..]
  {
    hide Advance, Distance;
    TakenOff(s.written, s.consumed, s.consumer.m);
  }

  lemma TakenOff(s: seq<Frame>, from: nat, n: nat)
    requires from + n <= |s|
    ensures s[from..][n..] == s[from + n..] && s[from..][..n] == s[from..from + n]
  {
  }

  function Init(storage: seq<Frame>): State {
    State(|storage|, storage, 0, 0, PIdle, CIdle, [], 0, [], [])
  }

  lemma InitSafe(storage: seq<Frame>)
    requires storage != []
    ensures Safe(Init(storage))
  {
    SmallMod(|storage|);
  }

  // ----- linearizable bounded FIFO -----

  ghost function Fifo(s: State): seq<Frame>
    requires s.consumed <= |s.written|
  {
    s.written[s.consumed..]
  }

  /** Each step is invisible to the queue, or appends the accepted frames at the back without
      exceeding capacity - 1, or takes the returned frames off the front. */
  ghost predicate FifoStep(s: State, s': State)
    requires s.consumed <= |s.written| && s'.consumed <= |s'.written|
  {
    || (Fifo(s') == Fifo(s) && s'.taken == s.taken)
    || (s.producer.PCopying? && Fifo(s') == Fifo(s) + s.producer.frames && |Fifo(s')| < s.capacity
        && s'.taken == s.taken)
    || (exists n :: 0 <= n <= |Fifo(s)| && Fifo(s') == Fifo(s)[n..] && s'.taken == s.taken + Fifo(s)[..n])
  }

  lemma TakesAreFifo(s: State, s': State, n: nat)
    requires s.consumed + n <= |s.written| && s'.written == s.written && s'.consumed == s.consumed + n
    requires s'.taken == s.taken + s.written[s.consumed..s.consumed + n]
    ensures FifoStep(s, s')
  {
    assert Fifo(s') == Fifo(s)[n..] && s'.taken == s.taken + Fifo(s)[..n];
  }

  /** Every step from a safe state is a step of the queue. */
  lemma StepIsFifo(s: State, a: Action)
    requires Safe(s)
    ensures Safe(Step(s, a)) && FifoStep(s, Step(s, a))
  {
    StepSafe(s, a);
    hide FifoStep, ProducerInvariant, ConsumerInvariant, RecordInvariant, Advance, Distance;
    if Step(s, a).consumed != s.consumed {
      Takes(s, a);
    } else if Step(s, a).written != s.written {
      Appends(s);
    } else {
      Unchanged(s, a);
    }
  }

  lemma Takes(s: State, a: Action)
    requires Safe(s) && Step(s, a).consumed != s.consumed
    ensures FifoStep(s, Step(s, a))
  {
    hide FifoStep, Advance, Distance;
    TakesAreFifo(s, Step(s, a), Step(s, a).consumed - s.consumed);
  }

  lemma Appends(s: State)
    requires Safe(s) && s.producer.PCopying? && s.producer.done == |s.producer.frames|
    ensures var s' := Step(s, PublishWrite);
      && s'.consumed == s.consumed <= |s'.written| && s'.taken == s.taken
      && Fifo(s') == Fifo(s) + s.producer.frames && |Fifo(s')| < s.capacity
  {
    hide Advance, Distance;
    BehindAll(s.written, s.producer.frames, s.consumed);
  }

  lemma BehindAll(written: seq<Frame>, frames: seq<Frame>, from: nat)
    requires from <= |written|
    ensures (written + frames)[from..] == written[from..] + frames
  {
  }

  lemma Unchanged(s: State, a: Action)
    requires Safe(s) && Step(s, a).consumed == s.consumed && Step(s, a).written == s.written
    ensures FifoStep(s, Step(s, a))
  {
    hide Advance, Distance;
    assert Fifo(Step(s, a)) == Fifo(s);
  }

  /** Over every interleaving from the empty ring, each step refines one step of a bounded FIFO, and
      what has been consumed is a prefix of what has been written. */
  lemma RunIsFifo(storage: seq<Frame>, acts: seq<Action>, a: Action)
    requires storage != []
    ensures Safe(Init(storage))
    ensures var s := Run(Init(storage), acts);
            FifoStep(s, Step(s, a)) && s.taken == s.written[..s.consumed]
  {
    InitSafe(storage);
    hide FifoStep, Run, Step;
    StepIsFifo(Run(Init(storage), acts), a);
  }
}
