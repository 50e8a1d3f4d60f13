/** Feeding the ring with backpressure: every attempt hands over what is left, a full ring is
    retried, and a stop request ends the loop. */
module PcmFeed {
  import opened BitStream
  import opened PcmRing

  /** What the rest of the system does around one look at the run flag: how many frames the playback
      side takes first, and whether the task is still to run. */
  datatype Poll = Poll(drained: nat, run: bool)

  const SILENCE_CHUNK := 256
  const SILENT := Frame(0, 0)

  // ----- what a feed comes to -----

  /** A feed under way: the looks at the run flag still to come, the unread frames in the ring, and the
      frames the ring has accepted so far. */
  datatype Progress = Progress(polls: seq<Poll>, fill: nat, sent: nat)

  /** The ring once the playback side has taken its frames. */
  function AfterPoll(p: Progress): Progress
    requires p.polls != []
  {
    var taken := if p.polls[0].drained < p.fill then p.polls[0].drained else p.fill;
    p.(polls := p.polls[1..], fill := p.fill - taken)
  }

  /** How many of `need` frames the ring has room for then. */
  function Room(p: Progress, capacity: nat, need: nat): (n: nat)
    requires p.polls != [] && p.fill < capacity
    ensures n <= need
  {
    var space := capacity - 1 - AfterPoll(p).fill;
    if need < space then need else space
  }

  /** After an attempt with as many frames. */
  function Next(p: Progress, capacity: nat, need: nat): (q: Progress)
    requires p.polls != [] && p.fill < capacity
    ensures q.fill < capacity && q.polls == p.polls[1..] && q.sent == p.sent + Room(p, capacity, need)
  {
    var q, n := AfterPoll(p), Room(p, capacity, need);
    q.(fill := q.fill + n, sent := q.sent + n)
  }

  /** An attempt takes everything or fills the ring, and something when the ring was drained before it. */
  lemma NextFacts(p: Progress, capacity: nat, need: nat)
    requires p.polls != [] && p.fill < capacity
    ensures Room(p, capacity, need) < need ==> Next(p, capacity, need).fill == capacity - 1
    ensures p.polls[0].drained >= 1 && 2 <= capacity && need > 0 ==> Room(p, capacity, need) >= 1
  {
  }

  /** Up to `need` more frames offered at every look, until they are in, the flag is down or no look is
      left. */
  function Feed(p: Progress, capacity: nat, need: nat): (r: Progress)
    requires p.fill < capacity
    ensures r.fill < capacity && p.sent <= r.sent <= p.sent + need && |r.polls| <= |p.polls|
    decreases |p.polls|
  {
    if need == 0 || p.polls == [] then p
    else if !p.polls[0].run then AfterPoll(p)
    else Feed(Next(p, capacity, need), capacity, need - Room(p, capacity, need))
  }

  /** The same in chunks, with a look at the flag before each. */
  function FeedChunks(p: Progress, capacity: nat, need: nat): (r: Progress)
    requires p.fill < capacity
    ensures r.fill < capacity && p.sent <= r.sent <= p.sent + need && |r.polls| <= |p.polls|
    decreases need
  {
    if need == 0 || p.polls == [] then p
    else
      var q := AfterPoll(p);
      if !p.polls[0].run then q
      else
        var chunk := if need > SILENCE_CHUNK then SILENCE_CHUNK else need;
        FeedChunks(Feed(q, capacity, chunk), capacity, need - chunk)
  }

  predicate AllRun(polls: seq<Poll>) {
    forall p <- polls :: p.run
  }

  lemma PollFacts(p: Progress)
    requires p.polls != []
    ensures AfterPoll(p).sent == p.sent && AfterPoll(p).fill <= p.fill && AfterPoll(p).polls == p.polls[1..]
  {
  }

  lemma TailRuns(polls: seq<Poll>)
    requires polls != [] && AllRun(polls)
    ensures polls[0].run && AllRun(polls[1..])
  {
  }

  lemma TailDrains(polls: seq<Poll>)
    requires polls != [] && KeepsDraining(polls)
    ensures polls[0].drained >= 1 && KeepsDraining(polls[1..])
  {
  }

  /** While the task runs, frames are left over only when the looks ran out, and then the ring is full:
      no attempt passes over room. */
  lemma {:induction false} ShortOnlyWhenFull(p: Progress, capacity: nat, need: nat)
    requires p.fill < capacity && AllRun(p.polls)
    ensures var r := Feed(p, capacity, need);
      r.sent < p.sent + need ==> r.polls == [] && (p.polls == [] || r.fill == capacity - 1)
    decreases |p.polls|
  {
    hide *;
    FeedStep(p, capacity, need);
    if need == 0 || p.polls == [] {
    } else {
      TailRuns(p.polls);
      NextFacts(p, capacity, need);
      var next, left := Next(p, capacity, need), need - Room(p, capacity, need);
      ShortOnlyWhenFull(next, capacity, left);
      FeedStep(next, capacity, left);
    }
  }

  /** The playback side takes at least one frame between any two attempts. */
  predicate KeepsDraining(polls: seq<Poll>) {
    forall p <- polls :: p.drained >= 1
  }

  /** A running task whose ring keeps being drained feeds everything, within one look a frame. */
  lemma {:induction false} FeedCompletes(p: Progress, capacity: nat, need: nat)
    requires p.fill < capacity && 2 <= capacity && AllRun(p.polls) && KeepsDraining(p.polls) && need <= |p.polls|
    ensures var r := Feed(p, capacity, need);
      && r.sent == p.sent + need && |r.polls| >= |p.polls| - need
      && AllRun(r.polls) && KeepsDraining(r.polls)
    decreases need
  {
    hide *;
    FeedStep(p, capacity, need);
    if need == 0 {
    } else {
      TailRuns(p.polls);
      TailDrains(p.polls);
      NextFacts(p, capacity, need);
      FeedCompletes(Next(p, capacity, need), capacity, need - Room(p, capacity, need));
    }
  }

  /** The same for a feed in chunks, which looks once more for each. */
  lemma {:induction false} ChunksComplete(p: Progress, capacity: nat, need: nat)
    requires p.fill < capacity && 2 <= capacity && AllRun(p.polls) && KeepsDraining(p.polls)
    requires 2 * need <= |p.polls|
    ensures var r := FeedChunks(p, capacity, need);
      && r.sent == p.sent + need && |r.polls| >= |p.polls| - 2 * need
      && AllRun(r.polls) && KeepsDraining(r.polls)
    decreases need
  {
    hide *;
    ChunkStep(p, capacity, need);
    if need == 0 {
    } else {
      TailRuns(p.polls);
      TailDrains(p.polls);
      PollFacts(p);
      var chunk := if need > SILENCE_CHUNK then SILENCE_CHUNK else need;
      ChunkIsSome();
      FeedCompletes(AfterPoll(p), capacity, chunk);
      ChunksComplete(Feed(AfterPoll(p), capacity, chunk), capacity, need - chunk);
    }
  }

  lemma ChunkIsSome()
    ensures SILENCE_CHUNK == 256
  {
  }

  lemma PollShift(p: Progress, before: nat)
    requires p.polls != []
    ensures AfterPoll(p.(sent := before + p.sent)) == AfterPoll(p).(sent := before + p.sent)
    ensures AfterPoll(p).sent == p.sent && AfterPoll(p).fill <= p.fill && AfterPoll(p).polls == p.polls[1..]
  {
  }

  lemma NextShift(p: Progress, capacity: nat, need: nat, before: nat)
    requires p.polls != [] && p.fill < capacity
    ensures var next := Next(p, capacity, need);
      && Next(p.(sent := before + p.sent), capacity, need) == next.(sent := before + next.sent)
      && Room(p.(sent := before + p.sent), capacity, need) == Room(p, capacity, need)
  {
    PollShift(p, before);
    hide AfterPoll;
  }

  /** A feed does not depend on what was sent before it. */
  lemma {:induction false} FeedShift(p: Progress, capacity: nat, need: nat, before: nat)
    requires p.fill < capacity
    ensures var r := Feed(p, capacity, need);
            Feed(p.(sent := before + p.sent), capacity, need) == r.(sent := before + r.sent)
    decreases |p.polls|
  {
    hide *;
    FeedStep(p, capacity, need);
    FeedStep(p.(sent := before + p.sent), capacity, need);
    if need == 0 || p.polls == [] {
    } else {
      NextShift(p, capacity, need, before);
      PollShift(p, before);
      if p.polls[0].run {
        FeedShift(Next(p, capacity, need), capacity, need - Room(p, capacity, need), before);
      }
    }
  }

  lemma {:induction false} ChunksShift(p: Progress, capacity: nat, need: nat, before: nat)
    requires p.fill < capacity
    ensures var r := FeedChunks(p, capacity, need);
            FeedChunks(p.(sent := before + p.sent), capacity, need) == r.(sent := before + r.sent)
    decreases need
  {
    hide Feed, FeedChunks, AfterPoll;
    ChunkStep(p, capacity, need);
    ChunkStep(p.(sent := before + p.sent), capacity, need);
    if need == 0 || p.polls == [] {
    } else {
      PollShift(p, before);
      if p.polls[0].run {
        var chunk := if need > SILENCE_CHUNK then SILENCE_CHUNK else need;
        FeedShift(AfterPoll(p), capacity, chunk, before);
        ChunksShift(Feed(AfterPoll(p), capacity, chunk), capacity, need - chunk, before);
      }
    }
  }

  /** Once the flag is down nothing is fed. */
  lemma StoppedFeedsNothing(p: Progress, capacity: nat, need: nat)
    requires p.fill < capacity && forall i :: 0 <= i < |p.polls| ==> !p.polls[i].run
    ensures Feed(p, capacity, need).sent == p.sent && FeedChunks(p, capacity, need).sent == p.sent
    ensures forall i :: 0 <= i < |Feed(p, capacity, need).polls| ==> !Feed(p, capacity, need).polls[i].run
    ensures forall i :: 0 <= i < |FeedChunks(p, capacity, need).polls| ==> !FeedChunks(p, capacity, need).polls[i].run
  {
  }

  /** One turn of a feed. */
  lemma FeedStep(p: Progress, capacity: nat, need: nat)
    requires p.fill < capacity
    ensures need == 0 || p.polls == [] ==> Feed(p, capacity, need) == p
    ensures need > 0 && p.polls != [] && !p.polls[0].run ==> Feed(p, capacity, need) == AfterPoll(p)
    ensures need > 0 && p.polls != [] && p.polls[0].run ==>
      Feed(p, capacity, need) == Feed(Next(p, capacity, need), capacity, need - Room(p, capacity, need))
  {
    hide Next, Room, AfterPoll;
  }

  /** One turn of a feed in chunks. */
  lemma ChunkStep(p: Progress, capacity: nat, need: nat)
    requires p.fill < capacity
    ensures need == 0 || p.polls == [] ==> FeedChunks(p, capacity, need) == p
    ensures need > 0 && p.polls != [] && !p.polls[0].run ==> FeedChunks(p, capacity, need) == AfterPoll(p)
    ensures need > 0 && p.polls != [] && p.polls[0].run ==> (
      var chunk := if need > 256 then 256 else need;
      FeedChunks(p, capacity, need) == FeedChunks(Feed(AfterPoll(p), capacity, chunk), capacity, need - chunk))
  {
    hide Feed;
  }

  // ----- the feeding loops -----

  lemma TakeMore(s: seq<Frame>, off: nat, n: nat)
    requires off + n <= |s|
    ensures s[..off] + s[off..][..n] == s[..off + n]
  {
  }

  class Feeder {
    const ring: RingBuf
    // the looks at the run flag still to come; every finite beginning of a task's life is one
    var polls: seq<Poll>

    /** Once cleared, the run flag stays cleared for this task. */
    ghost predicate Valid()
      reads this, ring, ring.storage
    {
      ring.Valid() && forall i, j :: 0 <= i < j < |polls| && !polls[i].run ==> !polls[j].run
    }

    ghost predicate Stopped()
      reads this
    {
      forall i :: 0 <= i < |polls| ==> !polls[i].run
    }

    /** Where a feed stands. */
    ghost function At(sent: nat): (p: Progress)
      requires ring.Valid()
      reads this, ring, ring.storage
      ensures p.fill < ring.capacity
    {
      Progress(polls, |ring.Contents()|, sent)
    }

    constructor (ring: RingBuf, polls: seq<Poll>)
      requires ring.Valid() && forall i, j :: 0 <= i < j < |polls| && !polls[i].run ==> !polls[j].run
      ensures Valid() && this.ring == ring && this.polls == polls
    {
      this.ring := ring;
      this.polls := polls;
    }

    /** One look at the run flag, if there is one left. */
    method Running(ghost sent: nat) returns (run: bool)
      requires Valid()
      modifies this`polls, ring`tail, ring`consumed
      ensures Valid()
      ensures old(polls) == [] ==> !run && At(sent) == old(At(sent))
      ensures old(polls) != [] ==> run == old(polls)[0].run && At(sent) == AfterPoll(old(At(sent)))
      ensures !run ==> Stopped()
      ensures old(Stopped()) ==> !run && Stopped()
    {
      if polls == [] {
        return false;
      }
      run := polls[0].run;
      var _ := ring.Drop(polls[0].drained);
      polls := polls[1..];
    }

    /** One attempt: the ring takes as many of the frames as there is room for. */
    method Offer(frames: seq<Frame>, ghost sent: nat) returns (n: nat)
      requires Valid()
      modifies ring`head, ring`written, ring.storage
      ensures Valid() && n <= |frames| && ring.written == old(ring.written) + frames[..n]
      ensures n == if |frames| < ring.capacity - 1 - old(At(sent)).fill then |frames|
                   else ring.capacity - 1 - old(At(sent)).fill
      ensures At(sent + n) == old(At(sent)).(fill := old(At(sent)).fill + n, sent := sent + n)
    {
      n := ring.Write(frames);
    }

    /** One turn of a feed: a look at the flag, and an attempt when the task is to run. */
    method Try(frames: seq<Frame>, ghost sent: nat) returns (run: bool, n: nat)
      requires Valid() && frames != []
      modifies this`polls, ring, ring.storage
      ensures Valid() && n <= |frames| && ring.written == old(ring.written) + frames[..n]
      ensures Feed(old(At(sent)), ring.capacity, |frames|)
           == if run then Feed(At(sent + n), ring.capacity, |frames| - n) else At(sent + n)
      ensures if run then |polls| < |old(polls)| else n == 0 && Stopped()
      ensures old(Stopped()) ==> !run && Stopped()
    {
      hide Feed;
      FeedStep(At(sent), ring.capacity, |frames|);
      run := Running(sent);
      n := 0;
      if run {
        n := Offer(frames, sent);
      } else {
        assert ring.written + frames[..0] == ring.written;
      }
    }

    /** Feeds decoded frames: the ring's stream grows by a beginning of them, as long as the looks at the
        flag and the room allow. */
    method FeedPcm(pcm: seq<Frame>) returns (off: nat)
      requires Valid()
      modifies this`polls, ring, ring.storage
      ensures Valid() && off <= |pcm|
      ensures ring.written == old(ring.written) + pcm[..off]
      ensures At(off) == Feed(old(At(0)), ring.capacity, |pcm|)
      ensures off == |pcm| || Stopped()
    {
      hide Feed, Feeder.At, Feeder.Stopped, RingBuf.Valid, RingBuf.Contents;
      off := 0;
      assert ring.written + pcm[..0] == ring.written;
      while off < |pcm|
        invariant Valid() && off <= |pcm|
        invariant ring.written == old(ring.written) + pcm[..off]
        invariant Feed(At(off), ring.capacity, |pcm| - off) == Feed(old(At(0)), ring.capacity, |pcm|)
        decreases |polls|
      {
        var run, n := Try(pcm[off..], off);
        TakeMore(pcm, off, n);
        off := off + n;
        if !run {
          return;
        }
      }
      FeedStep(At(off), ring.capacity, 0);
    }

    /** Feeds silence in chunks of at most 256 frames, of which every retry sends the rest. */
    method FeedSilence(frames: nat) returns (sent: nat)
      requires Valid()
      modifies this`polls, ring, ring.storage
      ensures Valid() && sent <= frames
      ensures ring.written == old(ring.written) + Repeat(SILENT, sent)
      ensures At(sent) == FeedChunks(old(At(0)), ring.capacity, frames)
      ensures sent == frames || Stopped()
    {
      hide Feed, FeedChunks, AfterPoll, Feeder.Stopped, RingBuf.Valid, RingBuf.Contents;
      var remaining: nat := frames;
      sent := 0;
      assert ring.written + Repeat(SILENT, 0) == ring.written;
      while remaining > 0
        invariant Valid() && remaining <= frames && sent <= frames
        invariant sent == frames - remaining || Stopped()
        invariant sent <= frames - remaining
        invariant ring.written == old(ring.written) + Repeat(SILENT, sent)
        invariant FeedChunks(At(sent), ring.capacity, remaining) == FeedChunks(old(At(0)), ring.capacity, frames)
        decreases remaining
      {
        ChunkStep(At(sent), ring.capacity, remaining);
        var run := Running(sent);
        if !run {
          return;
        }
        var chunk := if remaining > SILENCE_CHUNK then SILENCE_CHUNK else remaining;
        var off := FeedChunk(chunk, sent);
        assert Repeat(SILENT, sent) + Repeat(SILENT, off) == Repeat(SILENT, sent + off);
        sent := sent + off;
        remaining := remaining - chunk;
      }
      ChunkStep(At(sent), ring.capacity, 0);
    }

    /** One chunk of zeros, retried until it is in or the task is stopped. */
    method FeedChunk(chunk: nat, ghost sent: nat) returns (off: nat)
      requires Valid()
      modifies this`polls, ring, ring.storage
      ensures Valid() && off <= chunk
      ensures ring.written == old(ring.written) + Repeat(SILENT, off)
      ensures At(sent + off) == Feed(old(At(sent)), ring.capacity, chunk)
      ensures off == chunk || Stopped()
      ensures old(Stopped()) ==> Stopped() && off == 0
    {
      hide Feed, Feeder.At, Feeder.Stopped, RingBuf.Valid, RingBuf.Contents;
      off := 0;
      assert ring.written + Repeat(SILENT, 0) == ring.written;
      while off < chunk
        invariant Valid() && off <= chunk
        invariant ring.written == old(ring.written) + Repeat(SILENT, off)
        invariant Feed(At(sent + off), ring.capacity, chunk - off) == Feed(old(At(sent)), ring.capacity, chunk)
        invariant old(Stopped()) ==> Stopped() && off == 0
        decreases |polls|
      {
        var run, n := Try(Repeat(SILENT, chunk - off), sent + off);
        assert Repeat(SILENT, off) + Repeat(SILENT, chunk - off)[..n] == Repeat(SILENT, off + n);
        off := off + n;
        if !run {
          return;
        }
      }
      FeedStep(At(sent + off), ring.capacity, 0);
    }
  }
}
