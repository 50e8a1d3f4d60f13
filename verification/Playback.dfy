/** The playback loop: priming, one drift correction a cycle, the read, and silence on an underrun,
    with a producer that writes between any two of its looks at the ring. */
module Playback {
  import opened BitStream
  import opened PcmRing

  const CHUNK_FRAMES := 256
  const PREFILL_FRAMES := 11025
  const SILENT := Frame(0, 0)

  datatype Drift = NoDrift | DropOne | DupOne

  /** The watermark decision. An empty ring is never corrected. */
  function DriftDecide(avail: nat, high: nat, low: nat): Drift {
    if avail == 0 then NoDrift
    else if avail >= high then DropOne
    else if avail <= low then DupOne
    else NoDrift
  }

  /** C division truncates towards zero. */
  function Halve(v: int): (h: int)
    ensures if v >= 0 then 0 <= v - 2 * h <= 1 else -1 <= v - 2 * h <= 0
  {
    if v >= 0 then v / 2 else -(-v / 2)
  }

  function MixMono(f: Frame): Frame {
    var m := Halve(f.left + f.right);
    Frame(m, m)
  }

  // ----- what the loop may do -----

  /** One thing the loop does; numbers count the frames of the ring's stream. */
  datatype Event =
    | Observed(avail: nat)
    | Dropped(number: nat)
    | Dup(number: nat)
    | Play(number: nat)
    | Silence(underrun: bool)

  /** What the rules remember: frames taken so far, whether output is primed, the correction this
      cycle still owes, whether a duplicate still waits for its own frame. */
  datatype Rules = Rules(taken: nat, primed: bool, due: Drift, owed: bool)

  const START := Rules(0, false, NoDrift, false)

  predicate Allowed(r: Rules, e: Event) {
    match e
    case Observed(_) => !r.owed && r.due.NoDrift?
    case Dropped(i) => r.primed && i == r.taken && r.due.DropOne? && !r.owed
    case Dup(i) => r.primed && i == r.taken && r.due.DupOne? && !r.owed
    case Play(i) => r.primed && i == r.taken && r.due.NoDrift?
    case Silence(underrun) => !r.owed && r.due.NoDrift? && r.primed == underrun
  }

  /** `high` is the upper watermark of the ring. */
  function After(r: Rules, e: Event, high: nat): Rules {
    match e
    case Observed(avail) =>
      var primed := r.primed || avail >= PREFILL_FRAMES;
      r.(primed := primed, due := if primed then DriftDecide(avail, high, CHUNK_FRAMES) else NoDrift)
    case Dropped(_) => r.(taken := r.taken + 1, due := NoDrift)
    case Dup(_) => r.(due := NoDrift, owed := true)
    case Play(_) => r.(taken := r.taken + 1, owed := false)
    case Silence(underrun) => r.(primed := false)
  }

  function State(log: seq<Event>, high: nat): Rules {
    if log == [] then START else After(State(log[..|log| - 1], high), log[|log| - 1], high)
  }

  predicate Accepted(log: seq<Event>, high: nat) {
    forall i {:trigger log[i]} :: 0 <= i < |log| ==> Allowed(State(log[..i], high), log[i])
  }

  /** What leaves for the DAC. The mono mix-down skips duplicates. */
  function Emit(e: Event, written: seq<Frame>, mono: bool): seq<Frame> {
    match e
    case Play(i) => if i < |written| then [if mono then MixMono(written[i]) else written[i]] else []
    case Dup(i) => if i < |written| then [written[i]] else []
    case Silence(_) => Repeat(SILENT, CHUNK_FRAMES)
    case Observed(_) => []
    case Dropped(_) => []
  }

  function Render(log: seq<Event>, written: seq<Frame>, mono: bool): seq<Frame> {
    if log == [] then [] else Render(log[..|log| - 1], written, mono) + Emit(log[|log| - 1], written, mono)
  }

  predicate InStream(log: seq<Event>, n: nat) {
    forall i :: 0 <= i < |log| && (log[i].Play? || log[i].Dup? || log[i].Dropped?) ==> log[i].number < n
  }

  /** What an output frame is: silence, a frame of the stream, or the extra copy of one. */
  datatype Heard = Quiet | Whole(number: nat) | Again(number: nat)

  function HeardOf(e: Event): seq<Heard> {
    match e
    case Play(i) => [Whole(i)]
    case Dup(i) => [Again(i)]
    case Silence(_) => Repeat(Quiet, 256)
    case _ => []
  }

  function AllHeard(log: seq<Event>): seq<Heard> {
    if log == [] then [] else AllHeard(log[..|log| - 1]) + HeardOf(log[|log| - 1])
  }

  /** A frame of the stream keeps its channels in the stereo build; in the mono build both are half of left plus
      right, rounded towards zero. An extra copy is the frame as it is. */
  predicate IsHeard(f: Frame, h: Heard, written: seq<Frame>, mono: bool) {
    match h
    case Quiet => f.left == 0 && f.right == 0
    case Again(i) => i < |written| && f.left == written[i].left && f.right == written[i].right
    case Whole(i) =>
      && i < |written|
      && if !mono then f.left == written[i].left && f.right == written[i].right
         else
           var sum := written[i].left + written[i].right;
           f.left == f.right && if sum >= 0 then 0 <= sum - 2 * f.left <= 1 else -1 <= sum - 2 * f.left <= 0
  }

  /** The output, frame by frame. */
  lemma {:induction false} RenderExactly(log: seq<Event>, written: seq<Frame>, mono: bool)
    requires InStream(log, |written|)
    ensures var out, heard := Render(log, written, mono), AllHeard(log);
      |out| == |heard| && forall k :: 0 <= k < |out| ==> IsHeard(out[k], heard[k], written, mono)
  {
    if log == [] {
    } else {
      RenderExactly(log[..|log| - 1], written, mono);
      EmitExactly(log[|log| - 1], written, mono);
      hide Emit, HeardOf, IsHeard;
    }
  }

  lemma EmitExactly(e: Event, written: seq<Frame>, mono: bool)
    requires e.Play? || e.Dup? ==> e.number < |written|
    ensures var out, heard := Emit(e, written, mono), HeardOf(e);
      |out| == |heard| && forall k :: 0 <= k < |out| ==> IsHeard(out[k], heard[k], written, mono)
  {
    hide Halve;
  }

  lemma {:induction false} RenderGrows(log: seq<Event>, written: seq<Frame>, more: seq<Frame>, mono: bool)
    requires InStream(log, |written|)
    ensures Render(log, written + more, mono) == Render(log, written, mono)
  {
    if log == [] {
    } else {
      RenderGrows(log[..|log| - 1], written, more, mono);
    }
  }

  lemma Snoc(log: seq<Event>, e: Event, high: nat)
    requires Accepted(log, high) && Allowed(State(log, high), e)
    ensures Accepted(log + [e], high) && State(log + [e], high) == After(State(log, high), e, high)
  {
    var l := log + [e];
    assert l[..|log|] == log;
    forall i {:trigger l[i]} | 0 <= i < |l|
      ensures Allowed(State(l[..i], high), l[i])
    {
      if i < |log| {
        assert l[..i] == log[..i];
        assert l[i] == log[i];
      }
    }
  }

  // ----- what one cycle does -----

  /** What a cycle depends on: whether output is primed, the frames taken so far, the unread ones. */
  datatype Pump = Pump(primed: bool, taken: nat, fill: nat)

  /** How many frames the producer offers ahead of the look at the fill, ahead of the correction and
      ahead of the read. */
  datatype Turn = Turn(before: nat, meanwhile: nat, late: nat)

  /** The fill after the producer has written what fits; `high` frames fill the ring. */
  function Topped(fill: nat, offered: nat, high: nat): (f: nat)
    requires fill <= high
    ensures fill <= f <= high
  {
    if offered < high - fill then fill + offered else high
  }

  /** What the correction takes from the ring, and what it logs. */
  function Shed(drift: Drift): nat {
    if drift.DropOne? then 1 else 0
  }

  function CorrectionLog(drift: Drift, taken: nat): seq<Event> {
    match drift
    case DropOne => [Dropped(taken)]
    case DupOne => [Dup(taken)]
    case NoDrift => []
  }

  /** The frames of one read. */
  function Plays(from: nat, n: nat): (log: seq<Event>)
    ensures |log| == n
  {
    seq(n, i requires 0 <= i < n => Play(from + i))
  }

  function ReadLog(taken: nat, fill: nat): seq<Event> {
    if fill == 0 then [Silence(true)] else Plays(taken, Got(fill))
  }

  function Got(fill: nat): nat {
    if fill < CHUNK_FRAMES then fill else CHUNK_FRAMES
  }

  /** The fill a cycle sees, and the fill its read finds. */
  function Seen(p: Pump, high: nat, t: Turn): (f: nat)
    requires p.fill <= high
    ensures f <= high
  {
    Topped(p.fill, t.before, high)
  }

  function AtRead(p: Pump, high: nat, t: Turn): (f: nat)
    requires p.fill <= high
    ensures f <= high
  {
    var drift := DriftDecide(Seen(p, high, t), high, CHUNK_FRAMES);
    Topped(Topped(Seen(p, high, t), t.meanwhile, high) - Shed(drift), t.late, high)
  }

  /** Everything one cycle does. */
  function CycleLog(p: Pump, high: nat, t: Turn): seq<Event>
    requires p.fill <= high
  {
    var avail := Seen(p, high, t);
    if !p.primed && avail < PREFILL_FRAMES then [Observed(avail), Silence(false)]
    else
      var drift := DriftDecide(avail, high, CHUNK_FRAMES);
      [Observed(avail)] + (CorrectionLog(drift, p.taken) + ReadLog(p.taken + Shed(drift), AtRead(p, high, t)))
  }

  function CycleEnd(p: Pump, high: nat, t: Turn): (p': Pump)
    requires p.fill <= high
    ensures p'.fill <= high
  {
    var avail := Seen(p, high, t);
    if !p.primed && avail < PREFILL_FRAMES then p.(fill := avail)
    else
      var drift, fill := DriftDecide(avail, high, CHUNK_FRAMES), AtRead(p, high, t);
      Pump(fill > 0, p.taken + Shed(drift) + Got(fill), fill - Got(fill))
  }

  /** Any number of cycles. */
  function LoopLog(p: Pump, high: nat, turns: seq<Turn>): (r: (seq<Event>, Pump))
    requires p.fill <= high
    ensures r.1.fill <= high
  {
    if turns == [] then ([], p)
    else
      var (log, q) := LoopLog(p, high, turns[..|turns| - 1]);
      (log + CycleLog(q, high, turns[|turns| - 1]), CycleEnd(q, high, turns[|turns| - 1]))
  }

  lemma LoopStep(p: Pump, high: nat, turns: seq<Turn>, t: Turn)
    requires p.fill <= high
    ensures var (log, q) := LoopLog(p, high, turns);
            LoopLog(p, high, turns + [t]) == (log + CycleLog(q, high, t), CycleEnd(q, high, t))
  {
    assert (turns + [t])[..|turns|] == turns;
    hide CycleLog, CycleEnd;
  }

  // ----- the loop -----

  class Player {
    const ring: RingBuf
    const mono: bool
    var primed: bool
    var i2s: seq<Frame>
    ghost var log: seq<Event>

    /** The upper watermark: only a ring filled to the brim is above it. */
    ghost function High(): nat {
      if ring.capacity == 0 then 0 else ring.capacity - 1
    }

    ghost function Pumping(): (p: Pump)
      requires ring.Valid()
      reads this, ring, ring.storage
      ensures p.fill <= High()
    {
      Pump(primed, ring.consumed, |ring.Contents()|)
    }

    ghost function Now(): Rules
      reads this
    {
      State(log, High())
    }

    ghost predicate Valid()
      reads this, ring, ring.storage
    {
      && ring.Valid() && ring.capacity >= 2
      && Accepted(log, High()) && InStream(log, |ring.written|)
      && Now() == Rules(ring.consumed, primed, NoDrift, false)
      && i2s == Render(log, ring.written, mono)
    }

    constructor (ring: RingBuf, mono: bool)
      requires ring.Valid() && ring.capacity >= 2 && ring.consumed == 0
      ensures Valid() && this.ring == ring && this.mono == mono && i2s == [] && log == [] && !primed
    {
      this.ring, this.mono := ring, mono;
      primed, i2s, log := false, [], [];
    }

    /** The producer's turn: its stream grows, nothing else changes. */
    method ProducerTurn(frames: seq<Frame>)
      requires ring.Valid() && InStream(log, |ring.written|) && i2s == Render(log, ring.written, mono)
      modifies ring`head, ring`written, ring.storage
      ensures ring.Valid() && |ring.written| >= |old(ring.written)|
      ensures |ring.Contents()| == Topped(|old(ring.Contents())|, |frames|, High())
      ensures InStream(log, |ring.written|) && i2s == Render(log, ring.written, mono)
    {
      var n := ring.Write(frames);
      RenderGrows(log, old(ring.written), frames[..n], mono);
    }

    /** Appends an event to the log and what it emits to the output. */
    method Out(frames: seq<Frame>, ghost e: Event)
      requires Accepted(log, High()) && Allowed(Now(), e)
      requires frames == Emit(e, ring.written, mono) && i2s == Render(log, ring.written, mono)
      requires InStream(log + [e], |ring.written|)
      modifies this`i2s, this`log
      ensures log == old(log) + [e] && Accepted(log, High()) && Now() == After(old(Now()), e, High())
      ensures i2s == old(i2s) + frames && i2s == Render(log, ring.written, mono)
    {
      Snoc(log, e, High());
      i2s := i2s + frames;
      assert (log + [e])[..|log|] == log;
      log := log + [e];
    }

    /** One cycle of the loop. The producer writes `before` ahead of the look at the fill, `meanwhile`
        ahead of the correction and `late` ahead of the read. */
    method Cycle(before: seq<Frame>, meanwhile: seq<Frame>, late: seq<Frame>)
      requires Valid()
      modifies this`primed, this`i2s, this`log, ring, ring.storage
      ensures Valid() && old(i2s) <= i2s
      ensures var t := Turn(|before|, |meanwhile|, |late|);
        && log == old(log) + CycleLog(old(Pumping()), High(), t)
        && Pumping() == CycleEnd(old(Pumping()), High(), t)
    {
      hide Render, State, Accepted, InStream, DriftDecide, ReadLog, CorrectionLog, Topped;
      var avail := Look(before);
      if !primed {
        if avail < PREFILL_FRAMES {
          StayQuiet(avail);
          return;
        }
        primed := true;
      }
      Correct(avail, meanwhile, late);
    }

    /** The look at the fill, after a turn of the producer. */
    method Look(before: seq<Frame>) returns (avail: nat)
      requires Valid()
      modifies this`i2s, this`log, ring`head, ring`written, ring.storage
      ensures ring.Valid() && Accepted(log, High()) && InStream(log, |ring.written|)
      ensures avail == |ring.Contents()| == Topped(|old(ring.Contents())|, |before|, High())
      ensures log == old(log) + [Observed(avail)]
      ensures var p := primed || avail >= PREFILL_FRAMES;
        Now() == Rules(ring.consumed, p, if p then DriftDecide(avail, High(), CHUNK_FRAMES) else NoDrift, false)
      ensures i2s == Render(log, ring.written, mono) && old(i2s) <= i2s
    {
      hide Render, State, Accepted, DriftDecide, Topped;
      ProducerTurn(before);
      avail := ring.Available();
      Out([], Observed(avail));
    }

    /** A chunk of silence from an unprimed output. */
    method StayQuiet(avail: nat)
      requires ring.Valid() && ring.capacity >= 2 && Accepted(log, High()) && InStream(log, |ring.written|) && !primed
      requires Now() == Rules(ring.consumed, false, NoDrift, false) && i2s == Render(log, ring.written, mono)
      modifies this`i2s, this`log
      ensures Valid() && log == old(log) + [Silence(false)] && old(i2s) <= i2s
    {
      hide Render, State, Accepted;
      Out(Repeat(SILENT, CHUNK_FRAMES), Silence(false));
    }

    /** The primed part of a cycle, by the fill seen at the top of it. */
    method Correct(avail: nat, meanwhile: seq<Frame>, late: seq<Frame>)
      requires ring.Valid() && ring.capacity >= 2 && Accepted(log, High()) && InStream(log, |ring.written|) && primed
      requires Now() == Rules(ring.consumed, true, DriftDecide(avail, High(), CHUNK_FRAMES), false)
      requires i2s == Render(log, ring.written, mono) && avail == |ring.Contents()|
      modifies this`primed, this`i2s, this`log, ring, ring.storage
      ensures Valid() && old(i2s) <= i2s
      ensures var drift := DriftDecide(avail, High(), CHUNK_FRAMES);
        var taken := old(ring.consumed) + Shed(drift);
        var fill := Topped(Topped(avail, |meanwhile|, High()) - Shed(drift), |late|, High());
        && log == old(log) + (CorrectionLog(drift, old(ring.consumed)) + ReadLog(taken, fill))
        && Pumping() == Pump(fill > 0, taken + Got(fill), fill - Got(fill))
    {
      hide Render, State, Accepted, InStream, DriftDecide, ReadLog, CorrectionLog;
      ProducerTurn(meanwhile);
      DropOrDouble(avail);
      ProducerTurn(late);
      PlayChunk();
    }

    /** At most one frame dropped or doubled, by the fill seen at the top of the cycle. */
    method DropOrDouble(avail: nat)
      requires ring.Valid() && ring.capacity >= 2 && Accepted(log, High()) && InStream(log, |ring.written|)
      requires Now() == Rules(ring.consumed, true, DriftDecide(avail, High(), CHUNK_FRAMES), false)
      requires i2s == Render(log, ring.written, mono)
      requires avail <= |ring.Contents()|
      modifies this`i2s, this`log, ring`tail, ring`consumed
      ensures ring.Valid() && Accepted(log, High()) && InStream(log, |ring.written|)
      ensures Now() == Rules(ring.consumed, true, NoDrift, Now().owed) && (Now().owed ==> ring.Contents() != [])
      ensures i2s == Render(log, ring.written, mono) && old(i2s) <= i2s
      ensures var drift := DriftDecide(avail, High(), CHUNK_FRAMES);
        && log == old(log) + CorrectionLog(drift, old(ring.consumed))
        && ring.consumed == old(ring.consumed) + Shed(drift)
        && |ring.Contents()| == |old(ring.Contents())| - Shed(drift)
    {
      hide Render, State, Accepted;
      match DriftDecide(avail, ring.capacity - 1, CHUNK_FRAMES)
      case DropOne =>
        ghost var number := ring.consumed;
        var _ := ring.Drop(1);
        Out([], Dropped(number));
      case DupOne =>
        var found, f := ring.FirstFrame();
        if found {
          Out([f], Dup(ring.consumed));
        }
      case NoDrift =>
    }

    /** Reads a chunk and plays it; an empty ring is an underrun. */
    method PlayChunk()
      requires ring.Valid() && ring.capacity >= 2 && Accepted(log, High()) && InStream(log, |ring.written|)
      requires Now() == Rules(ring.consumed, true, NoDrift, Now().owed) && (Now().owed ==> ring.Contents() != [])
      requires i2s == Render(log, ring.written, mono) && primed
      modifies this`primed, this`i2s, this`log, ring`tail, ring`consumed
      ensures Valid() && old(i2s) <= i2s
      ensures var fill := |old(ring.Contents())|;
        && log == old(log) + ReadLog(old(ring.consumed), fill)
        && Pumping() == Pump(fill > 0, old(ring.consumed) + Got(fill), fill - Got(fill))
    {
      hide Render, State, Accepted;
      ghost var from := ring.consumed;
      var chunk := ring.Read(CHUNK_FRAMES);
      if chunk != [] {
        PlayFrames(chunk, from);
      } else {
        primed := false;
        Out(Repeat(SILENT, CHUNK_FRAMES), Silence(true));
      }
    }

    /** Mixes and plays a chunk that starts at frame `from` of the stream. */
    method PlayFrames(chunk: seq<Frame>, ghost from: nat)
      requires Accepted(log, High()) && InStream(log, |ring.written|) && i2s == Render(log, ring.written, mono)
      requires Now() == Rules(from, true, NoDrift, Now().owed) && chunk != []
      requires from + |chunk| <= |ring.written| && chunk == ring.written[from..from + |chunk|]
      modifies this`i2s, this`log
      ensures Accepted(log, High()) && InStream(log, |ring.written|) && i2s == Render(log, ring.written, mono)
      ensures Now() == Rules(from + |chunk|, true, NoDrift, false)
      ensures log == old(log) + Plays(from, |chunk|) && old(i2s) <= i2s
    {
      hide Render, State, Accepted, MixMono;
      var k := 0;
      while k < |chunk|
        invariant 0 <= k <= |chunk| && Accepted(log, High()) && InStream(log, |ring.written|)
        invariant i2s == Render(log, ring.written, mono) && old(i2s) <= i2s
        invariant log == old(log) + Plays(from, k)
        invariant Now() == Rules(from + k, true, NoDrift, Now().owed)
        invariant k > 0 ==> !Now().owed
      {
        Out([if mono then MixMono(chunk[k]) else chunk[k]], Play(from + k));
        assert Plays(from, k + 1) == Plays(from, k) + [Play(from + k)];
        k := k + 1;
      }
    }

    /** Any number of cycles, whatever the producer does in them. */
    method Loop(turns: seq<(seq<Frame>, seq<Frame>, seq<Frame>)>)
      requires Valid()
      modifies this`primed, this`i2s, this`log, ring, ring.storage
      ensures Valid()
      ensures var (more, end) := LoopLog(old(Pumping()), High(), Offered(turns));
              log == old(log) + more && Pumping() == end
    {
      ghost var p, start := Pumping(), log;
      assert log + [] == log && Offered(turns[..0]) == [] && LoopLog(p, High(), []) == ([], p);
      hide *;
      for i := 0 to |turns|
        invariant Valid()
        invariant log == start + LoopLog(p, High(), Offered(turns[..i])).0
        invariant Pumping() == LoopLog(p, High(), Offered(turns[..i])).1
      {
        NextTurn(turns[i].0, turns[i].1, turns[i].2, p, start, Offered(turns[..i]));
        OfferedSnoc(turns, i);
      }
      assert turns[..|turns|] == turns;
    }

    method NextTurn(before: seq<Frame>, meanwhile: seq<Frame>, late: seq<Frame>,
                    ghost p: Pump, ghost start: seq<Event>, ghost turns: seq<Turn>)
      requires Valid() && p.fill <= High()
      requires log == start + LoopLog(p, High(), turns).0 && Pumping() == LoopLog(p, High(), turns).1
      modifies this`primed, this`i2s, this`log, ring, ring.storage
      ensures Valid()
      ensures var all := LoopLog(p, High(), turns + [Turn(|before|, |meanwhile|, |late|)]);
              log == start + all.0 && Pumping() == all.1
    {
      hide *;
      ghost var t := Turn(|before|, |meanwhile|, |late|);
      ghost var (more, now) := LoopLog(p, High(), turns);
      LoopStep(p, High(), turns, t);
      Cycle(before, meanwhile, late);
      assert start + more + CycleLog(now, High(), t) == start + (more + CycleLog(now, High(), t));
    }
  }

  function Offered(turns: seq<(seq<Frame>, seq<Frame>, seq<Frame>)>): (ts: seq<Turn>)
    ensures |ts| == |turns|
  {
    seq(|turns|, i requires 0 <= i < |turns| => Turn(|turns[i].0|, |turns[i].1|, |turns[i].2|))
  }

  lemma OfferedSnoc(turns: seq<(seq<Frame>, seq<Frame>, seq<Frame>)>, i: nat)
    requires i < |turns|
    ensures Offered(turns[..i + 1]) == Offered(turns[..i]) + [Turn(|turns[i].0|, |turns[i].1|, |turns[i].2|)]
  {
  }


  // ----- what a cycle means -----

  /** Whether the look at the fill leaves output primed. */
  predicate PrimedBy(p: Pump, high: nat, t: Turn)
    requires p.fill <= high
  {
    p.primed || Seen(p, high, t) >= 11025
  }

  /** A cycle looks at the ring exactly once, first of all, and what it sees is the fill then. */
  lemma OneLookPerCycle(p: Pump, high: nat, t: Turn, i: nat)
    requires p.fill <= high && i < |CycleLog(p, high, t)|
    ensures CycleLog(p, high, t)[i].Observed? <==> i == 0
    ensures CycleLog(p, high, t)[0] == Observed(Seen(p, high, t))
  {
  }

  /** A cycle corrects at most once, right behind its look: it drops a frame exactly when output is primed
      and the ring was at its upper watermark, and doubles one exactly when a chunk or less, but not
      nothing, was left. */
  lemma CycleCorrects(p: Pump, high: nat, t: Turn, i: nat)
    requires p.fill <= high && 1 <= high && i < |CycleLog(p, high, t)|
    ensures var seen := Seen(p, high, t);
      && (CycleLog(p, high, t)[i].Dropped? <==> i == 1 && PrimedBy(p, high, t) && seen == high)
      && (CycleLog(p, high, t)[i].Dup? <==>
            i == 1 && PrimedBy(p, high, t) && 0 < seen < high && seen <= 256)
  {
  }

  /** A cycle is silent exactly when output is not primed, or it is and the read finds nothing; otherwise
      it plays what the read finds, up to a chunk. */
  lemma CycleIsSilent(p: Pump, high: nat, t: Turn)
    requires p.fill <= high && 1 <= high
    ensures Silence(false) in CycleLog(p, high, t) <==> !PrimedBy(p, high, t)
    ensures Silence(true) in CycleLog(p, high, t) <==> PrimedBy(p, high, t) && AtRead(p, high, t) == 0
    ensures PrimedBy(p, high, t) ==>
      var log, found := CycleLog(p, high, t), AtRead(p, high, t);
      var got := if found < 256 then found else 256;
      && got <= |log|
      && forall k :: |log| - got <= k < |log| ==> log[k] == Play(CycleEnd(p, high, t).taken + k - |log|)
  {
    var log := CycleLog(p, high, t);
    if !PrimedBy(p, high, t) {
      assert log[1] == Silence(false);
    } else {
      var drift := DriftDecide(Seen(p, high, t), high, CHUNK_FRAMES);
      var head := [Observed(Seen(p, high, t))] + CorrectionLog(drift, p.taken);
      assert log == head + ReadLog(p.taken + Shed(drift), AtRead(p, high, t));
      assert forall e <- head :: !e.Silence?;
      hide AtRead, Seen, DriftDecide, CorrectionLog;
      BehindHead(head, p.taken + Shed(drift), AtRead(p, high, t));
    }
  }

  /** What a read adds to a log without silence. */
  lemma BehindHead(head: seq<Event>, taken: nat, fill: nat)
    requires forall e <- head :: !e.Silence?
    ensures var log, got := head + ReadLog(taken, fill), Got(fill);
      && Silence(false) !in log && (Silence(true) in log <==> fill == 0) && got <= |log|
      && forall k :: |log| - got <= k < |log| ==> log[k] == Play(taken + got + k - |log|)
  {
    var read := ReadLog(taken, fill);
    var log := head + read;
    assert forall e :: e in log <==> e in head || e in read;
    if fill == 0 {
      assert read[0] == Silence(true);
    } else {
      assert forall e <- read :: e.Play?;
    }
  }

  /** Only frames the producer handed over come out: taken and unread frames together grow by what the
      ring accepted, and nothing else changes them. */
  lemma CycleConserves(p: Pump, high: nat, t: Turn)
    requires p.fill <= high && 1 <= high
    ensures var q := CycleEnd(p, high, t);
      && p.taken + p.fill <= q.taken + q.fill <= p.taken + p.fill + t.before + t.meanwhile + t.late
      && (t == Turn(0, 0, 0) ==> q.taken + q.fill == p.taken + p.fill)
  {
  }

  /** A loop's log is its cycles' logs one after the other. */
  lemma {:induction false} LoopIsCycles(p: Pump, high: nat, turns: seq<Turn>, i: nat)
    requires p.fill <= high && i < |turns|
    ensures var (log, q) := LoopLog(p, high, turns[..i]);
            log + CycleLog(q, high, turns[i]) <= LoopLog(p, high, turns).0
    decreases |turns|
  {
    hide CycleLog, CycleEnd;
    var n := |turns| - 1;
    assert turns == turns[..n] + [turns[n]];
    LoopStep(p, high, turns[..n], turns[n]);
    if i == n {
    } else {
      LoopIsCycles(p, high, turns[..n], i);
      assert turns[..n][..i] == turns[..i];
    }
  }

  /** Nothing leaves for the DAC but silence. */
  predicate OnlySilence(log: seq<Event>) {
    forall e <- log :: e.Observed? || e.Silence?
  }

  /** What cycle i of a loop sees. */
  function SeenIn(p: Pump, high: nat, turns: seq<Turn>, i: nat): nat
    requires p.fill <= high && i < |turns|
  {
    Seen(LoopLog(p, high, turns[..i]).1, high, turns[i])
  }

  lemma SilentCycle(p: Pump, high: nat, t: Turn)
    requires p.fill <= high && !p.primed && 1 <= high
    ensures OnlySilence(CycleLog(p, high, t)) <==> Seen(p, high, t) < 11025
    ensures OnlySilence(CycleLog(p, high, t)) ==> !CycleEnd(p, high, t).primed
  {
    var log := CycleLog(p, high, t);
    if Seen(p, high, t) >= PREFILL_FRAMES {
      CycleIsSilent(p, high, t);
      assert AtRead(p, high, t) > 0;
      assert log[|log| - 1].Play? && log[|log| - 1] in log;
    } else {
      assert log == [Observed(Seen(p, high, t)), Silence(false)];
    }
  }

  lemma SilenceOfBoth(a: seq<Event>, b: seq<Event>)
    ensures OnlySilence(a + b) <==> OnlySilence(a) && OnlySilence(b)
  {
  }

  /** From an unprimed start, as after an underrun, only silence comes out exactly as long as no cycle has
      seen at least the prefill in the ring. */
  lemma {:induction false} SilentIff(p: Pump, high: nat, turns: seq<Turn>)
    requires p.fill <= high && !p.primed && 1 <= high
    ensures var (log, q) := LoopLog(p, high, turns);
      && (OnlySilence(log) <==> forall i :: 0 <= i < |turns| ==> SeenIn(p, high, turns, i) < 11025)
      && (OnlySilence(log) ==> !q.primed)
    decreases |turns|
  {
    hide *;
    if turns == [] {
      NoTurns(p, high);
    } else {
      var n := |turns| - 1;
      var before, t := turns[..n], turns[n];
      var (log, q) := LoopLog(p, high, before);
      SilentIff(p, high, before);
      assert turns == before + [t];
      LoopStep(p, high, before, t);
      forall i | 0 <= i < n
        ensures SeenIn(p, high, turns, i) == SeenIn(p, high, before, i)
      {
        SeenEarlier(p, high, turns, i);
      }
      SeenLast(p, high, turns);
      SilenceOfBoth(log, CycleLog(q, high, t));
      if OnlySilence(log) {
        SilentCycle(q, high, t);
      }
    }
  }

  lemma NoTurns(p: Pump, high: nat)
    requires p.fill <= high
    ensures LoopLog(p, high, []) == ([], p) && OnlySilence([])
  {
  }

  lemma SeenEarlier(p: Pump, high: nat, turns: seq<Turn>, i: nat)
    requires p.fill <= high && i + 1 < |turns|
    ensures SeenIn(p, high, turns, i) == SeenIn(p, high, turns[..|turns| - 1], i)
  {
    assert turns[..|turns| - 1][..i] == turns[..i];
    hide LoopLog, Seen;
  }

  lemma SeenLast(p: Pump, high: nat, turns: seq<Turn>)
    requires p.fill <= high && turns != []
    ensures var n := |turns| - 1; SeenIn(p, high, turns, n) == Seen(LoopLog(p, high, turns[..n]).1, high, turns[n])
  {
  }

  // ----- what accepted logs mean -----

  /** The frames taken from the ring by an event. */
  function TakenBy(e: Event): seq<nat> {
    if e.Play? || e.Dropped? then [e.number] else []
  }

  function AllTaken(log: seq<Event>): seq<nat> {
    if log == [] then [] else AllTaken(log[..|log| - 1]) + TakenBy(log[|log| - 1])
  }

  lemma Prefix(log: seq<Event>, high: nat, k: nat)
    requires Accepted(log, high) && k <= |log|
    ensures Accepted(log[..k], high)
  {
    forall i {:trigger log[..k][i]} | 0 <= i < k
      ensures Allowed(State(log[..k][..i], high), log[..k][i])
    {
      assert log[..k][..i] == log[..i];
      assert log[..k][i] == log[i];
    }
  }

  /** Every frame taken from the ring is played or dropped, once, in stream order. */
  lemma {:induction false} TakenInOrder(log: seq<Event>, high: nat)
    requires Accepted(log, high)
    ensures |AllTaken(log)| == State(log, high).taken
    ensures forall i :: 0 <= i < |AllTaken(log)| ==> AllTaken(log)[i] == i
  {
    if log == [] {
    } else {
      Prefix(log, high, |log| - 1);
      TakenInOrder(log[..|log| - 1], high);
      assert Allowed(State(log[..|log| - 1], high), log[|log| - 1]);
    }
  }

  lemma StateStep(log: seq<Event>, high: nat, k: nat)
    requires k < |log|
    ensures State(log[..k + 1], high) == After(State(log[..k], high), log[k], high)
  {
    assert log[..k + 1][..k] == log[..k];
  }

  /** A duplicate is followed at once by the frame it doubles, and by nothing else. */
  lemma DupThenItsFrame(log: seq<Event>, high: nat, k: nat)
    requires Accepted(log, high) && k < |log| && log[k].Dup?
    ensures State(log, high).owed || k + 1 < |log|
    ensures k + 1 < |log| ==> log[k + 1] == Play(log[k].number)
  {
    assert Allowed(State(log[..k], high), log[k]);
    StateStep(log, high, k);
    if k + 1 < |log| {
      assert Allowed(State(log[..k + 1], high), log[k + 1]);
    } else {
      assert log[..k + 1] == log;
    }
  }

  predicate IsCorrection(e: Event) {
    e.Dup? || e.Dropped?
  }

  /** A correction comes right after a look at the fill, so there is at most one a cycle. */
  lemma OneCorrectionPerCycle(log: seq<Event>, high: nat, k: nat)
    requires Accepted(log, high) && k < |log| && IsCorrection(log[k])
    ensures k > 0 && log[k - 1].Observed?
  {
    assert Allowed(State(log[..k], high), log[k]);
    if k > 0 {
      assert Allowed(State(log[..k - 1], high), log[k - 1]);
      StateStep(log, high, k - 1);
    }
  }

  /** Once output is primed a look at the fill is followed by a drop exactly when the ring is at its
      upper watermark, and by a duplicate exactly when a chunk or less, but not nothing, is left. */
  lemma CorrectionIff(log: seq<Event>, high: nat, k: nat)
    requires Accepted(log, high) && k + 1 < |log| && log[k].Observed? && high >= 1
    requires State(log[..k], high).primed || log[k].avail >= 11025
    ensures log[k + 1].Dropped? <==> log[k].avail >= high
    ensures log[k + 1].Dup? <==> 0 < log[k].avail < high && log[k].avail <= 256
  {
    assert Allowed(State(log[..k + 1], high), log[k + 1]);
    StateStep(log, high, k);
  }

  /** After an underrun nothing but silence leaves the loop until a fill of at least the prefill has
      been observed. */
  lemma {:induction false} SilentUntilPrefilled(log: seq<Event>, high: nat, j: nat, k: nat)
    requires Accepted(log, high) && j < k < |log| && log[j] == Silence(true)
    requires log[k].Play? || log[k].Dup? || log[k].Dropped?
    ensures exists m :: j < m < k && log[m].Observed? && log[m].avail >= 11025
  {
    assert Allowed(State(log[..k], high), log[k]);
    StateStep(log, high, j);
    FirstPrefilled(log, high, j + 1, k);
  }

  lemma {:induction false} FirstPrefilled(log: seq<Event>, high: nat, j: nat, k: nat)
    requires Accepted(log, high) && j <= k < |log| && !State(log[..j], high).primed && State(log[..k], high).primed
    ensures exists m :: j <= m < k && log[m].Observed? && log[m].avail >= PREFILL_FRAMES
    decreases k - j
  {
    if j < k && !(log[j].Observed? && log[j].avail >= PREFILL_FRAMES) {
      StateStep(log, high, j);
      FirstPrefilled(log, high, j + 1, k);
    }
  }

  /** In the mono build everything but a duplicate has equal channels, and a duplicate has exactly
      when the frame it doubles had. */
  lemma MonoExceptDuplicates(e: Event, written: seq<Frame>)
    requires e.Play? || e.Dup? ==> e.number < |written|
    ensures (forall f :: f in Emit(e, written, true) ==> f.left == f.right)
            <==> (e.Dup? ==> written[e.number].left == written[e.number].right)
  {
    if e.Dup? {
      assert written[e.number] in Emit(e, written, true);
    }
  }
}
