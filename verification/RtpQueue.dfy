/** The reorder buffer over unbounded packet numbers: a map from numbers to payloads with a play
    cursor, and what whole runs of it deliver. Numbers are those of the RTP header (section 5.1 of
    RFC 3550) before they are cut to 16 bits. */
module RtpQueue {
  import opened BitStream

  type Bytes = seq<byte>

  /** Longest stored payload. */
  const MAX_PKT := 1536

  datatype InsertResult = Stored | Dup | TooOld | TooNew | BadLen

  /** What a pop reports; the number is the cursor's before the pop. */
  datatype PopResult = Ok(number: int, data: Bytes) | Wait | Conceal(number: int) | Empty

  /** next is the play cursor, head one past the newest number seen. */
  datatype Queue = Queue(window: nat, hold: nat, started: bool, next: int, head: int, pending: map<int, Bytes>) {

    ghost predicate Valid() {
      && 1 <= window && hold < window
      && next <= head <= next + window
      && (forall t :: t in pending ==> next <= t < head)
      && (pending == map[] <==> next == head)
      && (pending != map[] ==> head - 1 in pending)
      && (!started ==> next == head)
    }

    function Anchor(t: int): Queue {
      this.(started := true, next := t, head := t)
    }

    function Insert(t: int, data: Bytes): (Queue, InsertResult) {
      if data == [] || |data| > MAX_PKT then (this, BadLen)
      else
        var q := if started then this else Anchor(t);
        if t < q.next then (q, TooOld)
        else if t - q.next >= window then (q, TooNew)
        else if t in q.pending then (q, Dup)
        else (q.(pending := q.pending[t := data], head := if q.head < t + 1 then t + 1 else q.head), Stored)
    }

    function Pop(): (Queue, PopResult) {
      if !started || pending == map[] then (this, Empty)
      else if next in pending then (this.(next := next + 1, pending := pending - {next}), Ok(next, pending[next]))
      else if head - next > hold then (this.(next := next + 1), Conceal(next))
      else (this, Wait)
    }

    /** Of a started buffer: which payloads are refused, and that a stored one is all that changes. */
    lemma InsertExactly(t: int, data: Bytes)
      requires Valid() && started
      ensures var (q, r) := Insert(t, data);
        && (r.BadLen? <==> data == [] || |data| > 1536)
        && (r.TooOld? <==> 0 < |data| <= 1536 && t < next)
        && (r.TooNew? <==> 0 < |data| <= 1536 && t >= next + window)
        && (r.Dup? <==> 0 < |data| <= 1536 && t in pending)
        && (if r.Stored? then q.pending == pending[t := data] && q.next == next && head <= q.head && t < q.head
            else q == this)
    {
    }

    /** Only an empty buffer can be anchored: what is left in it would be outside the window. */
    lemma AnchorValid(t: int)
      requires Valid()
      ensures Anchor(t).Valid() <==> pending == map[]
    {
    }

    lemma InsertValid(t: int, data: Bytes)
      requires Valid()
      ensures Insert(t, data).0.Valid()
    {
      var (q, r) := Insert(t, data);
      if r == Stored {
        assert t in q.pending;
      }
    }

    lemma PopValid()
      requires Valid()
      ensures Pop().0.Valid()
    {
      var (q, r) := Pop();
      if r.Ok? && next + 1 != head {
        assert head - 1 in q.pending;
      }
    }
  }

  // ----- whole runs -----

  datatype Op = InsertOp(number: int, data: Bytes) | PopOp

  /** A run so far: the queue, what its pops delivered or concealed, and for each number the bytes
      that were stored for it. */
  datatype Run = Run(q: Queue, out: seq<PopResult>, stored: map<int, Bytes>)

  function Step(r: Run, op: Op): Run {
    match op
    case InsertOp(t, data) =>
      var (q, res) := r.q.Insert(t, data);
      Run(q, r.out, if res == Stored then r.stored[t := data] else r.stored)
    case PopOp =>
      var (q, res) := r.q.Pop();
      Run(q, if res.Ok? || res.Conceal? then r.out + [res] else r.out, r.stored)
  }

  function RunAll(r: Run, ops: seq<Op>): Run {
    if ops == [] then r else Step(RunAll(r, ops[..|ops| - 1]), ops[|ops| - 1])
  }

  /** What the cursor owes for a number it has passed: the stored bytes, or a concealment when
      nothing was stored in time. */
  function Owed(stored: map<int, Bytes>, t: int): PopResult {
    if t in stored then Ok(t, stored[t]) else Conceal(t)
  }

  ghost predicate RunInvariant(r: Run, first: int) {
    && r.q.Valid() && r.q.started && first <= r.q.next
    && |r.out| == r.q.next - first
    && (forall i :: 0 <= i < |r.out| ==> r.out[i] == Owed(r.stored, first + i))
    && (forall t :: t in r.q.pending ==> t in r.stored && r.stored[t] == r.q.pending[t])
    && (forall t :: t in r.stored ==> first <= t && (t < r.q.next || t in r.q.pending))
  }

  lemma StepKeepsInvariant(r: Run, op: Op, first: int)
    requires RunInvariant(r, first)
    ensures RunInvariant(Step(r, op), first)
    ensures forall t :: t in r.stored ==> t in Step(r, op).stored && Step(r, op).stored[t] == r.stored[t]
  {
    match op
    case InsertOp(t, data) =>
      InsertKeepsInvariant(r, t, data, first);
    case PopOp =>
      PopKeepsInvariant(r, first);
  }

  lemma InsertKeepsInvariant(r: Run, t: int, data: Bytes, first: int)
    requires RunInvariant(r, first)
    ensures var r' := Step(r, InsertOp(t, data));
            RunInvariant(r', first) && forall t :: t in r.stored ==> t in r'.stored && r'.stored[t] == r.stored[t]
  {
    r.q.InsertValid(t, data);
  }

  lemma PopKeepsInvariant(r: Run, first: int)
    requires RunInvariant(r, first)
    ensures RunInvariant(Step(r, PopOp), first) && Step(r, PopOp).stored == r.stored
  {
    r.q.PopValid();
  }

  /** Over every run of inserts and pops from an anchored buffer, the cursor's advances are
      consecutive numbers, each delivered exactly once as the bytes stored for it or concealed when
      none were, and bytes once stored are never replaced. */
  lemma {:induction false} RunDeliversInOrder(q: Queue, ops: seq<Op>, k: nat)
    requires q.Valid() && q.started && q.pending == map[] && k <= |ops|
    ensures
      var start := Run(q, [], map[]);
      var r := RunAll(start, ops);
      && r.q.Valid() && |r.out| == r.q.next - q.next
      && (forall i :: 0 <= i < |r.out| ==> r.out[i] == Owed(r.stored, q.next + i))
      && (forall t :: t in r.q.pending ==> r.q.next <= t && t in r.stored && r.stored[t] == r.q.pending[t])
      && (forall t :: t in RunAll(start, ops[..k]).stored ==>
            t in r.stored && r.stored[t] == RunAll(start, ops[..k]).stored[t])
  {
    RunKeepsInvariant(q, ops, k);
    hide RunAll, Owed, Queue.Valid;
  }

  lemma {:induction false} RunKeepsInvariant(q: Queue, ops: seq<Op>, k: nat)
    requires q.Valid() && q.started && q.pending == map[] && k <= |ops|
    ensures
      var start := Run(q, [], map[]);
      && RunInvariant(RunAll(start, ops), q.next)
      && (forall t :: t in RunAll(start, ops[..k]).stored ==>
            t in RunAll(start, ops).stored && RunAll(start, ops).stored[t] == RunAll(start, ops[..k]).stored[t])
    decreases |ops|
  {
    var start := Run(q, [], map[]);
    if k == |ops| {
      assert ops[..k] == ops;
    }
    if ops != [] {
      var shorter := ops[..|ops| - 1];
      var j := if k == |ops| then 0 else k;
      assert shorter[..j] == ops[..j];
      RunKeepsInvariant(q, shorter, j);
      hide Step, RunInvariant;
      StepKeepsInvariant(RunAll(start, shorter), ops[|ops| - 1], q.next);
    }
  }

  // ----- draining -----

  /** Pops until the buffer is empty or the front packet may still arrive. */
  function Drain(q: Queue): (r: (Queue, seq<PopResult>))
    requires q.Valid()
    ensures r.0.Valid()
    decreases q.head - q.next
  {
    var (q1, res) := q.Pop();
    q.PopValid();
    if res.Ok? || res.Conceal? then
      var (q2, out) := Drain(q1);
      (q2, [res] + out)
    else (q, [])
  }

  /** One turn of a drain. */
  lemma DrainStep(q: Queue)
    requires q.Valid()
    ensures
      var (q1, res) := q.Pop();
      && q1.Valid()
      && if res.Ok? || res.Conceal? then
           Drain(q) == (Drain(q1).0, [res] + Drain(q1).1) && q1.head - q1.next < q.head - q.next
         else Drain(q) == (q, []) && q1 == q
  {
    q.PopValid();
  }

  /** Where a drain stops: the first number that is missing and still within the hold distance of
      the newest packet, or the head. */
  ghost predicate StopsAt(q: Queue, s: int) {
    && q.next <= s <= q.head
    && (s == q.head || (s !in q.pending && q.head - s <= q.hold))
    && forall j :: q.next <= j < s ==> j in q.pending || q.head - j > q.hold
  }

  /** A drain delivers or conceals every number up to the stopping point, in order, and leaves the
      later packets alone. */
  lemma {:induction false} DrainMeaning(q: Queue)
    requires q.Valid() && q.started
    ensures
      var (q', out) := Drain(q);
      && StopsAt(q, q'.next) && q'.head == q.head && q'.head - q'.next <= q.hold
      && q'.started && q'.window == q.window && q'.hold == q.hold
      && |out| == q'.next - q.next
      && (forall i :: 0 <= i < |out| ==> out[i] == Owed(q.pending, q.next + i))
      && (forall t :: t in q'.pending <==> t in q.pending && q'.next <= t)
      && (forall t :: t in q'.pending ==> q'.pending[t] == q.pending[t])
    decreases q.head - q.next
  {
    DrainStep(q);
    var (q1, res) := q.Pop();
    hide Drain, StopsAt, Queue.Valid;
    if res.Ok? || res.Conceal? {
      DrainMeaning(q1);
      StopsEarlier(q, q1, Drain(q1).0.next);
    } else {
      StopsHere(q);
    }
  }

  lemma StopsEarlier(q: Queue, q1: Queue, s: int)
    requires q.Valid() && q.started && q1 == q.Pop().0 && q1.next == q.next + 1 && StopsAt(q1, s)
    ensures StopsAt(q, s)
  {
    forall j | q.next <= j < s
      ensures j in q.pending || q.head - j > q.hold
    {
      if j > q.next {
        assert j in q1.pending || q1.head - j > q1.hold;
      }
    }
  }

  lemma StopsHere(q: Queue)
    requires q.Valid() && q.started && (q.Pop().1 == Wait || q.Pop().1 == Empty)
    ensures StopsAt(q, q.next)
  {
  }

  /** The numbers from the cursor on that are missing before the first buffered one. */
  ghost predicate GapIs(q: Queue, count: nat) {
    && q.started && count >= 1 && q.next + count in q.pending
    && forall j :: q.next <= j < q.next + count ==> j !in q.pending
  }

  /** After a drain there is a range to request exactly when packets are left behind a gap, and it
      is shorter than the hold distance. */
  lemma DrainedGap(q: Queue)
    requires q.Valid() && q.started
    ensures var q' := Drain(q).0;
            && ((exists count: nat :: GapIs(q', count)) <==> q'.pending != map[])
            && (q'.pending != map[] <==> q'.Pop().1 == Wait)
            && forall count: nat :: GapIs(q', count) ==> count < q.hold
  {
    DrainMeaning(q);
    var q' := Drain(q).0;
    if q'.pending != map[] {
      var count := FirstPending(q', q'.next);
    }
  }

  /** Distance from the cursor to the first buffered number, when nothing before `from` is. */
  lemma FirstPending(q: Queue, from: int) returns (count: nat)
    requires q.Valid() && q.started && q.pending != map[] && q.next !in q.pending && q.next <= from < q.head
    requires forall j :: q.next <= j < from ==> j !in q.pending
    ensures GapIs(q, count)
    decreases q.head - from
  {
    if from in q.pending {
      count := from - q.next;
    } else {
      count := FirstPending(q, from + 1);
    }
  }

  // ----- arrivals -----

  /** The receiver: its buffer and everything handed on so far. */
  datatype Receiver = Receiver(q: Queue, played: seq<PopResult>)

  /** A packet is buffered under its number and the buffer drained. */
  function Arrive(r: Receiver, t: int, data: Bytes): Receiver
    requires r.q.Valid()
  {
    var (q1, _) := r.q.Insert(t, data);
    r.q.InsertValid(t, data);
    var (q2, out) := Drain(q1);
    Receiver(q2, r.played + out)
  }

  ghost function ArriveAll(r: Receiver, ts: seq<int>, payload: int -> Bytes): (r': Receiver)
    requires r.q.Valid()
    ensures r'.q.Valid()
  {
    if ts == [] then r
    else Arrive(ArriveAll(r, ts[..|ts| - 1], payload), ts[|ts| - 1], payload(ts[|ts| - 1]))
  }

  /** Reordering bounded by the hold distance: when a packet arrives, everything at least `hold`
      before it has arrived. */
  ghost predicate BoundedReorder(ts: seq<int>, first: int, hold: nat) {
    forall i, j :: 0 <= i < |ts| && first <= j <= ts[i] - hold ==> j in ts[..i]
  }

  /** Every arrival so far at or after the anchor is in, everything before the cursor is played. */
  ghost predicate InStep(r: Receiver, start: Queue, ts: seq<int>, payload: int -> Bytes) {
    && r.q.Valid() && r.q.started && r.q.hold == start.hold && r.q.window == start.window
    && start.next <= r.q.next && r.q.head - r.q.next <= start.hold
    && (forall t :: start.next <= t < r.q.next ==> t in ts)
    && r.q.next !in ts
    && (forall t :: t in r.q.pending <==> t in ts && r.q.next <= t)
    && (forall t :: t in r.q.pending ==> r.q.pending[t] == payload(t))
    && |r.played| == r.q.next - start.next
    && (forall i :: 0 <= i < |r.played| ==> r.played[i] == Ok(start.next + i, payload(start.next + i)))
  }

  /** In step but for the drain: an arrival has been buffered. */
  ghost predicate Buffered(q: Queue, start: Queue, ts: seq<int>, payload: int -> Bytes) {
    && q.Valid() && q.started && q.hold == start.hold && q.window == start.window
    && start.next <= q.next && q.head - q.next <= start.hold
    && (forall t :: start.next <= t < q.next ==> t in ts)
    && (forall u :: u in q.pending <==> u in ts && q.next <= u)
    && (forall u :: u in q.pending ==> q.pending[u] == payload(u))
  }

  /** Buffering an arrival that is not too early keeps the receiver in step but for the drain. */
  lemma InsertInStep(r: Receiver, start: Queue, ts: seq<int>, t: int, payload: int -> Bytes)
    requires start.Valid() && InStep(r, start, ts, payload) && 0 < |payload(t)| <= MAX_PKT
    requires forall j :: start.next <= j <= t - start.hold ==> j in ts
    ensures var q1 := r.q.Insert(t, payload(t)).0;
            q1.next == r.q.next && Buffered(q1, start, ts + [t], payload)
  {
    r.q.InsertValid(t, payload(t));
    assert t - r.q.next < start.hold || t < r.q.next;
  }

  lemma ArriveInStep(r: Receiver, start: Queue, ts: seq<int>, t: int, payload: int -> Bytes)
    requires start.Valid() && InStep(r, start, ts, payload) && 0 < |payload(t)| <= MAX_PKT
    requires forall j :: start.next <= j <= t - start.hold ==> j in ts
    ensures InStep(Arrive(r, t, payload(t)), start, ts + [t], payload)
  {
    InsertInStep(r, start, ts, t, payload);
    var q1 := r.q.Insert(t, payload(t)).0;
    PlayedSoFar(r, start, ts, payload);
    BufferedDrains(q1, r.played, start, ts + [t], payload);
    hide InStep, Buffered, Drain, Queue.Valid, Queue.Insert;
  }

  lemma PlayedSoFar(r: Receiver, start: Queue, ts: seq<int>, payload: int -> Bytes)
    requires InStep(r, start, ts, payload)
    ensures |r.played| == r.q.next - start.next
    ensures forall i :: 0 <= i < |r.played| ==> r.played[i] == Ok(start.next + i, payload(start.next + i))
  {
  }

  lemma BufferedDrains(q: Queue, played: seq<PopResult>, start: Queue, ts: seq<int>, payload: int -> Bytes)
    requires Buffered(q, start, ts, payload) && |played| == q.next - start.next
    requires forall i :: 0 <= i < |played| ==> played[i] == Ok(start.next + i, payload(start.next + i))
    ensures InStep(Receiver(Drain(q).0, played + Drain(q).1), start, ts, payload)
  {
    hide *;
    BufferedParts(q, start, ts, payload);
    StopMissing(q, start, ts, payload);
    AllDelivered(q, payload);
    PlayedGrows(played, start.next, q, payload);
    BufferedKeeps(q, start, ts, payload);
    StepIs(Receiver(Drain(q).0, played + Drain(q).1), start, ts, payload);
  }

  lemma BufferedParts(q: Queue, start: Queue, ts: seq<int>, payload: int -> Bytes)
    requires Buffered(q, start, ts, payload)
    ensures q.Valid() && q.started && q.head - q.next <= q.hold
    ensures forall u :: u in q.pending ==> q.pending[u] == payload(u)
  {
  }

  /** The queue's part of being in step. */
  ghost predicate QueueInStep(q: Queue, start: Queue, ts: seq<int>, payload: int -> Bytes) {
    && q.Valid() && q.started && q.hold == start.hold && q.window == start.window
    && start.next <= q.next && q.head - q.next <= start.hold
    && (forall t :: t in q.pending <==> t in ts && q.next <= t)
    && (forall t :: t in q.pending ==> q.pending[t] == payload(t))
  }

  lemma BufferedKeeps(q: Queue, start: Queue, ts: seq<int>, payload: int -> Bytes)
    requires Buffered(q, start, ts, payload)
    ensures QueueInStep(Drain(q).0, start, ts, payload)
  {
    DrainKeeps(q);
    hide Drain, Queue.Valid;
  }

  lemma StepIs(r: Receiver, start: Queue, ts: seq<int>, payload: int -> Bytes)
    requires QueueInStep(r.q, start, ts, payload) && r.q.next !in ts
    requires forall t :: start.next <= t < r.q.next ==> t in ts
    requires |r.played| == r.q.next - start.next
    requires forall i :: 0 <= i < |r.played| ==> r.played[i] == Ok(start.next + i, payload(start.next + i))
    ensures InStep(r, start, ts, payload)
  {
    hide Queue.Valid;
  }

  /** Where a drain stops nothing has arrived, and everything before has. */
  lemma StopMissing(q: Queue, start: Queue, ts: seq<int>, payload: int -> Bytes)
    requires Buffered(q, start, ts, payload)
    ensures Drain(q).0.next !in ts && forall t :: start.next <= t < Drain(q).0.next ==> t in ts
  {
    DrainMeaning(q);
    AllDelivered(q, payload);
    hide Drain, Owed;
  }

  lemma DrainKeeps(q: Queue)
    requires q.Valid() && q.started
    ensures
      var q' := Drain(q).0;
      && q'.Valid() && q'.started && q'.window == q.window && q'.hold == q.hold && q'.head - q'.next <= q.hold
      && q'.next >= q.next
      && (forall t :: t in q'.pending <==> t in q.pending && q'.next <= t)
      && (forall t :: t in q'.pending ==> q'.pending[t] == q.pending[t])
  {
    DrainMeaning(q);
    hide Drain, Owed;
  }

  lemma PlayedGrows(played: seq<PopResult>, first: int, q: Queue, payload: int -> Bytes)
    requires q.Valid() && q.started && |played| == q.next - first
    requires forall i :: 0 <= i < |played| ==> played[i] == Ok(first + i, payload(first + i))
    requires forall j :: q.next <= j < Drain(q).0.next ==> Owed(q.pending, j) == Ok(j, payload(j))
    ensures var all := played + Drain(q).1;
            && |all| == Drain(q).0.next - first
            && forall i :: 0 <= i < |all| ==> all[i] == Ok(first + i, payload(first + i))
  {
    hide *;
    DrainMeaning(q);
    var out := Drain(q).1;
    forall i | 0 <= i < |played + out|
      ensures (played + out)[i] == Ok(first + i, payload(first + i))
    {
      if i >= |played| {
        assert out[i - |played|] == Owed(q.pending, q.next + (i - |played|));
      }
    }
  }

  /** When nothing is overdue, a drain conceals nothing. */
  lemma AllDelivered(q: Queue, payload: int -> Bytes)
    requires q.Valid() && q.started && q.head - q.next <= q.hold
    requires forall u :: u in q.pending ==> q.pending[u] == payload(u)
    ensures var (q', out) := Drain(q);
            forall j :: q.next <= j < q'.next ==> j in q.pending && Owed(q.pending, j) == Ok(j, payload(j))
  {
    DrainMeaning(q);
  }

  lemma ReorderOfPrefix(ts: seq<int>, first: int, hold: nat, n: nat)
    requires BoundedReorder(ts, first, hold) && n <= |ts|
    ensures BoundedReorder(ts[..n], first, hold)
  {
    forall i, j | 0 <= i < n && first <= j <= ts[..n][i] - hold
      ensures j in ts[..n][..i]
    {
      assert ts[..n][i] == ts[i] && ts[..n][..i] == ts[..i];
    }
  }

  lemma Overdue(ts: seq<int>, first: int, hold: nat, i: nat)
    requires BoundedReorder(ts, first, hold) && i < |ts|
    ensures forall j :: first <= j <= ts[i] - hold ==> j in ts[..i]
  {
  }

  lemma ArriveSnoc(r: Receiver, ts: seq<int>, t: int, payload: int -> Bytes)
    requires r.q.Valid()
    ensures ArriveAll(r, ts + [t], payload) == Arrive(ArriveAll(r, ts, payload), t, payload(t))
  {
    assert (ts + [t])[..|ts|] == ts;
    hide Arrive;
  }

  /** Bounded reordering, duplication and loss repaired by retransmission are invisible: whatever
      the arrival order, what has been played is exactly the in-order payload stream from the anchor
      up to the first packet not yet arrived, with no concealment. */
  lemma {:induction false} InOrderDelivery(start: Queue, ts: seq<int>, payload: int -> Bytes)
    requires start.Valid() && start.started && start.pending == map[]
    requires BoundedReorder(ts, start.next, start.hold)
    requires forall t :: t in ts ==> 0 < |payload(t)| <= MAX_PKT
    ensures InStep(ArriveAll(Receiver(start, []), ts, payload), start, ts, payload)
  {
    if ts == [] {
    } else {
      var n := |ts| - 1;
      var before, t := ts[..n], ts[n];
      ReorderOfPrefix(ts, start.next, start.hold, n);
      Overdue(ts, start.next, start.hold, n);
      assert ts == before + [t];
      ArriveSnoc(Receiver(start, []), before, t, payload);
      hide Arrive, InStep, ArriveAll, BoundedReorder;
      InOrderDelivery(start, before, payload);
      ArriveInStep(ArriveAll(Receiver(start, []), before, payload), start, before, t, payload);
    }
  }

  // ----- any arrivals -----

  /** The packet of number t, which had arrived, or a concealment in its place. */
  ghost predicate Fair(p: PopResult, t: int, ts: seq<int>, payload: int -> Bytes) {
    p == Conceal(t) || (p == Ok(t, payload(t)) && t in ts)
  }

  /** Each number the cursor has passed was played as its own packet, which had arrived, or concealed; what is
      buffered has arrived. */
  ghost predicate Accounts(r: Receiver, first: int, ts: seq<int>, payload: int -> Bytes) {
    && r.q.Valid() && r.q.started && first <= r.q.next
    && |r.played| == r.q.next - first
    && (forall i :: 0 <= i < |r.played| ==> Fair(r.played[i], first + i, ts, payload))
    && (forall t :: t in r.q.pending ==> t in ts && r.q.pending[t] == payload(t))
  }

  lemma ArriveAccounts(r: Receiver, first: int, ts: seq<int>, t: int, payload: int -> Bytes)
    requires Accounts(r, first, ts, payload)
    ensures Accounts(Arrive(r, t, payload(t)), first, ts + [t], payload)
  {
    InsertAccounts(r, first, ts, t, payload);
    var q1 := r.q.Insert(t, payload(t)).0;
    DrainAccounts(Receiver(q1, r.played), first, ts + [t], payload);
    hide Accounts, Drain, Queue.Insert, Queue.Valid;
  }

  lemma InsertAccounts(r: Receiver, first: int, ts: seq<int>, t: int, payload: int -> Bytes)
    requires Accounts(r, first, ts, payload)
    ensures var q1 := r.q.Insert(t, payload(t)).0;
            q1.Valid() && Accounts(Receiver(q1, r.played), first, ts + [t], payload)
  {
    r.q.InsertValid(t, payload(t));
  }

  lemma DrainAccounts(r: Receiver, first: int, ts: seq<int>, payload: int -> Bytes)
    requires Accounts(r, first, ts, payload)
    ensures Accounts(Receiver(Drain(r.q).0, r.played + Drain(r.q).1), first, ts, payload)
  {
    DrainMeaning(r.q);
    hide Drain, StopsAt, Owed, Fair, Queue.Valid;
    var out := Drain(r.q).1;
    forall i | 0 <= i < |r.played + out|
      ensures Fair((r.played + out)[i], first + i, ts, payload)
    {
      if i >= |r.played| {
        assert out[i - |r.played|] == Owed(r.q.pending, r.q.next + (i - |r.played|));
        OwedIsFair(r.q.pending, first + i, ts, payload);
      }
    }
  }

  lemma OwedIsFair(stored: map<int, Bytes>, t: int, ts: seq<int>, payload: int -> Bytes)
    requires t in stored ==> t in ts && stored[t] == payload(t)
    ensures Fair(Owed(stored, t), t, ts, payload)
  {
  }

  /** Whatever arrives, in whatever order: consecutive numbers, each its packet or a concealment. */
  lemma {:induction false} EveryNumberAccounted(start: Queue, ts: seq<int>, payload: int -> Bytes)
    requires start.Valid() && start.started && start.pending == map[]
    ensures Accounts(ArriveAll(Receiver(start, []), ts, payload), start.next, ts, payload)
  {
    if ts == [] {
    } else {
      var before, t := ts[..|ts| - 1], ts[|ts| - 1];
      assert ts == before + [t];
      ArriveSnoc(Receiver(start, []), before, t, payload);
      hide *;
      EveryNumberAccounted(start, before, payload);
      ArriveAccounts(ArriveAll(Receiver(start, []), before, payload), start.next, before, t, payload);
    }
  }

  // ----- stalling -----

  /** Neither the cursor nor the head ever moves back. */
  lemma ArriveAdvances(r: Receiver, t: int, data: Bytes)
    requires r.q.Valid() && r.q.started
    ensures var r' := Arrive(r, t, data);
      && r'.q.Valid() && r'.q.started && r'.q.window == r.q.window && r'.q.hold == r.q.hold
      && r'.q.head >= r.q.head && r'.q.next >= r.q.next
  {
    r.q.InsertValid(t, data);
    DrainMeaning(r.q.Insert(t, data).0);
  }

  /** A drained buffer takes an arrival exactly when its number is in the window, and then its head
      moves on. */
  lemma OneArrival(start: Queue, t: int, data: Bytes)
    requires start.Valid() && start.started && start.pending == map[] && 0 < |data| <= MAX_PKT
    ensures var r := Arrive(Receiver(start, []), t, data);
      if start.next <= t < start.next + start.window then r.q.head > start.head else r == Receiver(start, [])
  {
    var (q1, res) := start.Insert(t, data);
    start.InsertValid(t, data);
    DrainMeaning(q1);
  }

  /** As every drain leaves it: nothing can be delivered, and nothing is overdue. */
  ghost predicate Settled(q: Queue) {
    q.Valid() && q.started && q.head - q.next <= q.hold && q.next !in q.pending
  }

  lemma DrainSettles(q: Queue)
    requires q.Valid() && q.started
    ensures Settled(Drain(q).0)
    ensures Settled(q) ==> Drain(q) == (q, [])
  {
    DrainMeaning(q);
    DrainStep(q);
  }

  /** What an arrival does to a settled buffer. Outside the window, or with its packet in already, nothing.
      At the cursor, or the hold distance or more beyond it, something is played. In between it waits. */
  lemma ArriveSettled(r: Receiver, t: int, data: Bytes)
    requires Settled(r.q) && 0 < |data| <= MAX_PKT
    ensures var r' := Arrive(r, t, data);
      && Settled(r'.q) && r'.q.window == r.q.window && r'.q.hold == r.q.hold
      && if !(r.q.next <= t < r.q.next + r.q.window) || t in r.q.pending then r' == r
         else if t == r.q.next || t - r.q.next >= r.q.hold then r'.q.next > r.q.next && r.played < r'.played
         else r'.q.next == r.q.next && r'.played == r.played && r'.q.pending == r.q.pending[t := data]
  {
    var q1 := r.q.Insert(t, data).0;
    r.q.InsertValid(t, data);
    DrainMeaning(q1);
    DrainSettles(q1);
    hide Drain;
    if t != r.q.next && t - r.q.next < r.q.hold {
      DrainSettles(r.q);
    }
  }

  /** The front gap of a settled buffer is shorter than the hold distance. */
  lemma SettledGap(q: Queue)
    requires Settled(q)
    ensures forall count: nat :: GapIs(q, count) ==> count < q.hold
  {
  }
}
