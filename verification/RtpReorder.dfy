/** The reorder buffer as it runs: a ring of slots keyed by the 16-bit sequence number. It refines
    the queue over unbounded numbers. */
module RtpReorder {
  import opened Arith
  import opened RtpQueue

  const SEQ_SPACE := 0x1_0000

  datatype Slot = Slot(valid: bool, seqNo: nat, data: Bytes)

  /** a is strictly before b, read off the sign of the 16-bit difference. */
  predicate SeqLt(a: nat, b: nat) {
    Wrap16(a - b) < 0
  }

  /** Packets from b up to a. */
  function SeqDiff(a: nat, b: nat): nat {
    (a - b) % SEQ_SPACE
  }

  /** The 16-bit part of a packet number. */
  function Seq(t: int): nat {
    t % SEQ_SPACE
  }

  lemma SeqSplit(t: int)
    ensures t == t / SEQ_SPACE * SEQ_SPACE + Seq(t) && 0 <= Seq(t) < SEQ_SPACE
  {
  }

  /** Modular comparison is exact for numbers less than half the sequence space apart. */
  lemma SeqLtExact(x: int, y: int)
    requires -0x8000 <= x - y < 0x8000
    ensures SeqLt(Seq(x), Seq(y)) <==> x < y
  {
    var k := y / SEQ_SPACE - x / SEQ_SPACE;
    SeqSplit(x);
    SeqSplit(y);
    ModShift(x - y + 0x8000, k, SEQ_SPACE);
    WrapIdentity(x - y, SEQ_SPACE);
  }

  lemma SeqDiffExact(x: int, y: int)
    requires 0 <= x - y < SEQ_SPACE
    ensures SeqDiff(Seq(x), Seq(y)) == x - y
  {
    var k := y / SEQ_SPACE - x / SEQ_SPACE;
    SeqSplit(x);
    SeqSplit(y);
    ModShift(x - y, k, SEQ_SPACE);
    ModUnique(x - y, SEQ_SPACE, 0, x - y);
  }

  lemma SeqNext(t: int)
    ensures Seq(t + 1) == (Seq(t) + 1) % SEQ_SPACE
  {
    SeqSplit(t);
    ModShift(Seq(t) + 1, t / SEQ_SPACE, SEQ_SPACE);
  }

  /** The number a 16-bit sequence number stands for: the one nearest to the play cursor. */
  function NumberOf(q: Queue, seqNo: nat): int {
    q.next + Wrap16(seqNo - Seq(q.next))
  }

  lemma NumberOfSeq(q: Queue, seqNo: nat)
    requires seqNo < SEQ_SPACE
    ensures Seq(NumberOf(q, seqNo)) == seqNo && -0x8000 <= NumberOf(q, seqNo) - q.next < 0x8000
  {
    SeqSplit(q.next);
    var k := WrapShift(seqNo - Seq(q.next), SEQ_SPACE);
    ModUnique(NumberOf(q, seqNo), SEQ_SPACE, q.next / SEQ_SPACE + k, seqNo);
  }

  /** The sequence number of packet t stands for t exactly when t is within half the sequence space of
      the cursor. */
  lemma NumberOfIff(q: Queue, t: int)
    ensures NumberOf(q, Seq(t)) == t <==> -0x8000 <= t - q.next < 0x8000
  {
    SeqSplit(t);
    NumberOfSeq(q, Seq(t));
    if -0x8000 <= t - q.next < 0x8000 {
      var k := q.next / SEQ_SPACE - t / SEQ_SPACE;
      SeqSplit(q.next);
      ModShift(t - q.next + 0x8000, k, SEQ_SPACE);
      WrapIdentity(t - q.next, SEQ_SPACE);
    }
  }

  /** The slot of a packet number does not depend on which wrap of the 16 bits it is in, because
      the window divides the sequence space. */
  predicate GoodWindow(window: nat) {
    1 <= window <= 0x8000 && SEQ_SPACE % window == 0
  }

  function SlotOf(t: int, window: nat): (i: nat)
    requires GoodWindow(window)
    ensures i < window
  {
    t % window
  }

  lemma SlotOfSeq(t: int, window: nat)
    requires GoodWindow(window)
    ensures SlotOf(Seq(t), window) == SlotOf(t, window)
  {
    SeqSplit(t);
    var q := t / SEQ_SPACE;
    var f := SEQ_SPACE / window;
    assert SEQ_SPACE == f * window;
    assert t == Seq(t) + (q * f) * window by {
      assert q * SEQ_SPACE == (q * f) * window;
    }
    ModShift(Seq(t), q * f, window);
  }

  /** Numbers of one window have different slots. */
  lemma SlotsDiffer(a: int, b: int, window: nat)
    requires GoodWindow(window) && a < b < a + window
    ensures SlotOf(a, window) != SlotOf(b, window)
  {
    var qa, qb := a / window, b / window;
    assert a == qa * window + a % window && b == qb * window + b % window;
    if a % window == b % window {
      assert b - a == (qb - qa) * window;
      if qb <= qa {
        MulMonotone(qb - qa, 0, window);
      } else {
        MulMonotone(1, qb - qa, window);
      }
    }
  }

  lemma SlotWraps(t: int, window: nat)
    requires GoodWindow(window)
    ensures SlotOf(t + window, window) == SlotOf(t, window)
  {
    ModShift(t, 1, window);
  }

  /** What the code can tell its caller: 16-bit numbers, and none for a concealed packet. */
  datatype PopOutcome = PopOk(seqNo: nat, data: Bytes) | PopWait | PopConceal | PopEmpty

  function Cut(r: PopResult): PopOutcome {
    match r
    case Ok(t, data) => PopOk(Seq(t), data)
    case Wait => PopWait
    case Conceal(_) => PopConceal
    case Empty => PopEmpty
  }

  /** The slot of t is live exactly when t is buffered, and then it is t's own. */
  ghost predicate Holds(slot: Slot, q: Queue, t: int) {
    if t in q.pending then slot.valid && slot.seqNo == Seq(t) && slot.data == q.pending[t]
    else !slot.valid
  }

  /** Every number of the window has its slot in order. */
  ghost predicate AllHold(slots: seq<Slot>, q: Queue, window: nat)
    requires GoodWindow(window) && |slots| == window
  {
    forall t {:trigger SlotOf(t, window)} :: q.next <= t < q.next + window ==> Holds(slots[SlotOf(t, window)], q, t)
  }

  lemma HoldsAt(slots: seq<Slot>, q: Queue, window: nat, t: int)
    requires GoodWindow(window) && |slots| == window && AllHold(slots, q, window) && q.next <= t < q.next + window
    ensures Holds(slots[SlotOf(t, window)], q, t)
  {
  }

  lemma OthersDiffer(t: int, u: int, window: nat)
    requires GoodWindow(window) && t - u < window && u - t < window
    ensures t != u ==> SlotOf(t, window) != SlotOf(u, window)
  {
    if t < u {
      SlotsDiffer(t, u, window);
    } else if u < t {
      SlotsDiffer(u, t, window);
    }
  }

  lemma StoreKeepsSlots(slots: seq<Slot>, q: Queue, window: nat, t: int, data: Bytes)
    requires GoodWindow(window) && |slots| == window && AllHold(slots, q, window)
    requires q.window == window && q.started && q.Insert(t, data).1 == Stored
    ensures AllHold(slots[SlotOf(t, window) := Slot(true, Seq(t), data)], q.Insert(t, data).0, window)
  {
    hide SlotOf, GoodWindow, Seq;
    forall u {:trigger SlotOf(u, window)} | q.next <= u < q.next + window
      ensures Holds(slots[SlotOf(t, window) := Slot(true, Seq(t), data)][SlotOf(u, window)], q.Insert(t, data).0, u)
    {
      OthersDiffer(t, u, window);
      assert Holds(slots[SlotOf(u, window)], q, u);
    }
  }

  /** Passing the cursor's number frees its slot for the number a window ahead. */
  lemma PassKeepsSlots(slots: seq<Slot>, after: seq<Slot>, q: Queue, window: nat)
    requires GoodWindow(window) && |slots| == |after| == window && AllHold(slots, q, window)
    requires q.window == window && q.Valid() && (q.Pop().1.Ok? || q.Pop().1.Conceal?)
    requires !after[SlotOf(q.next, window)].valid
    requires forall i :: 0 <= i < window && i != SlotOf(q.next, window) ==> after[i] == slots[i]
    ensures AllHold(after, q.Pop().0, window)
  {
    SlotWraps(q.next, window);
    hide SlotOf, GoodWindow, Seq;
    var q1 := q.Pop().0;
    forall u {:trigger SlotOf(u, window)} | q1.next <= u < q1.next + window
      ensures Holds(after[SlotOf(u, window)], q1, u)
    {
      if u < q.next + window {
        OthersDiffer(q.next, u, window);
        assert Holds(slots[SlotOf(u, window)], q, u);
      }
    }
  }

  /** With nothing buffered every slot is dead. */
  lemma AllEmpty(slots: seq<Slot>, q: Queue, window: nat, t: int)
    requires GoodWindow(window) && |slots| == window && AllHold(slots, q, window) && q.pending == map[]
    ensures AllHold(slots, q.Anchor(t), window)
  {
    forall i | 0 <= i < window
      ensures !slots[i].valid
    {
      SlotReached(q.next, i, window);
      assert Holds(slots[SlotOf(q.next + (i - q.next) % window, window)], q, q.next + (i - q.next) % window);
    }
  }

  /** Slots, 16-bit numbers and count are those of the queue. */
  ghost predicate Represents(slots: seq<Slot>, next: nat, head: nat, count: nat, q: Queue, window: nat) {
    && GoodWindow(window) && |slots| == window && q.Valid() && q.window == window
    && next == Seq(q.next) && head == Seq(q.head) && count == |q.pending| && AllHold(slots, q, window)
  }

  /** What a pop does, as the code tells it from the slot at the cursor and the 16-bit numbers. */
  lemma PopMeans(slots: seq<Slot>, next: nat, head: nat, count: nat, q: Queue, window: nat)
    requires Represents(slots, next, head, count, q, window) && GoodWindow(window) && |slots| == window
    ensures var (q', r) := q.Pop(); var slot := slots[SlotOf(next, window)];
      && q'.hold == q.hold && q'.started == q.started
      && if !q.started || count == 0 then q' == q && Cut(r) == PopEmpty
         else if slot.valid && slot.seqNo == next then r.Ok? && Cut(r) == PopOk(next, slot.data) && count > 0
         else if SeqDiff(head, next) > q.hold then r.Conceal? && Cut(r) == PopConceal && !slot.valid
         else q' == q && Cut(r) == PopWait
  {
    assert window <= 0x8000;
    hide SeqDiff, Seq, SlotOf, GoodWindow, AllHold;
    SlotOfSeq(q.next, window);
    HoldsAt(slots, q, window, q.next);
    SeqDiffExact(q.head, q.next);
  }

  /** A packet played or given up: the cursor moves on, and its slot is dead. */
  lemma PassKeeps(slots: seq<Slot>, after: seq<Slot>, next: nat, head: nat, count: nat, q: Queue, window: nat)
    requires Represents(slots, next, head, count, q, window) && GoodWindow(window)
    requires |slots| == |after| == window && !after[SlotOf(next, window)].valid
    requires forall i :: 0 <= i < window && i != SlotOf(next, window) ==> after[i] == slots[i]
    requires q.Pop().1.Ok? || q.Pop().1.Conceal?
    ensures count > 0
    ensures Represents(after, (next + 1) % SEQ_SPACE, head, if q.Pop().1.Ok? then count - 1 else count, q.Pop().0,
                       window)
  {
    hide SeqDiff, Seq, SlotOf, GoodWindow, AllHold;
    SlotOfSeq(q.next, window);
    SeqNext(q.next);
    q.PopValid();
    PassKeepsSlots(slots, after, q, window);
  }

  class Reorder {
    const slots: array<Slot>
    const window: nat
    const hold: nat
    var next: nat
    var head: nat
    var count: nat
    var started: bool
    ghost var q: Queue

    ghost predicate Valid()
      reads this, slots
    {
      && GoodWindow(window) && slots.Length == window && q.hold == hold && q.started == started
      && Represents(slots[..], next, head, count, q, window)
    }

    constructor (window: nat, hold: nat)
      requires GoodWindow(window)
      ensures Valid() && fresh(slots) && this.window == window && !started && q.pending == map[]
      ensures this.hold == if 0 < hold < window then hold else window - 1
    {
      this.window := window;
      this.hold := if 0 < hold < window then hold else window - 1;
      slots := new Slot[window](_ => Slot(false, 0, []));
      next, head, count, started := 0, 0, 0, false;
      q := Queue(window, if 0 < hold < window then hold else window - 1, false, 0, 0, map[]);
    }

    /** Anchors the buffer at the number that firstSeq stands for, which it survives exactly when it was
        empty. */
    method AnchorAt(firstSeq: nat)
      requires Valid() && firstSeq < SEQ_SPACE
      modifies this`next, this`head, this`started, this`q
      ensures q == old(q).Anchor(NumberOf(old(q), firstSeq))
      ensures next == firstSeq && head == firstSeq && started && count == |q.pending| && slots[..] == old(slots[..])
      ensures Valid() <==> old(q).pending == map[]
    {
      ghost var t := NumberOf(q, firstSeq);
      NumberOfSeq(q, firstSeq);
      q.AnchorValid(t);
      if q.pending == map[] {
        AllEmpty(slots[..], q, window, t);
      }
      next, head, started := firstSeq, firstSeq, true;
      q := q.Anchor(t);
    }

    /** Stores one payload in the slot of the number its sequence number stands for. */
    method Insert(seqNo: nat, data: Bytes) returns (r: InsertResult)
      requires Valid() && seqNo < SEQ_SPACE
      modifies this`next, this`head, this`count, this`started, this`q, slots
      ensures Valid() && (q, r) == old(q).Insert(NumberOf(old(q), seqNo), data)
      ensures r != Stored ==> slots[..] == old(slots[..])
      ensures forall i :: 0 <= i < window && i != SlotOf(seqNo, window) ==> slots[i] == old(slots[i])
      ensures old(slots[SlotOf(seqNo, window)]).valid ==>
        slots[SlotOf(seqNo, window)] == old(slots[SlotOf(seqNo, window)])
    {
      assert window <= 0x8000;
      ghost var t := NumberOf(q, seqNo);
      NumberOfSeq(q, seqNo);
      hide SeqLt, SeqDiff, Seq, SlotOf, GoodWindow, NumberOf;
      if |data| == 0 || |data| > MAX_PKT {
        return BadLen;
      }
      if !started {
        AnchorAt(seqNo);
      }
      SeqLtExact(t, q.next);
      if SeqLt(seqNo, next) {
        return TooOld;
      }
      SeqDiffExact(t, q.next);
      if SeqDiff(seqNo, next) >= window {
        return TooNew;
      }
      SlotOfSeq(t, window);
      var i := SlotOf(seqNo, window);
      assert Holds(slots[i], q, t);
      if slots[i].valid && slots[i].seqNo == seqNo {
        return Dup;
      }
      Store(seqNo, data, t);
      r := Stored;
    }

    /** Fills the slot of a packet that is in the window and not buffered. */
    method Store(seqNo: nat, data: Bytes, ghost t: int)
      requires Valid() && started && seqNo == Seq(t) && seqNo < SEQ_SPACE && q.Insert(t, data).1 == Stored
      modifies this`head, this`count, this`q, slots
      ensures Valid() && q == old(q).Insert(t, data).0
      ensures !old(slots[SlotOf(seqNo, window)]).valid
      ensures forall i :: 0 <= i < window && i != SlotOf(seqNo, window) ==> slots[i] == old(slots[i])
    {
      assert window <= 0x8000;
      hide SeqLt, Seq, SlotOf, GoodWindow;
      ghost var was := slots[..];
      SlotOfSeq(t, window);
      var i := SlotOf(seqNo, window);
      assert Holds(slots[i], q, t);
      if !slots[i].valid {
        count := count + 1;
      }
      slots[i] := Slot(true, seqNo, data);
      SeqNext(t);
      SeqLtExact(q.head, t + 1);
      if SeqLt(head, (seqNo + 1) % SEQ_SPACE) {
        head := (seqNo + 1) % SEQ_SPACE;
      }
      q.InsertValid(t, data);
      StoreKeepsSlots(was, q, window, t, data);
      assert slots[..] == was[i := Slot(true, seqNo, data)];
      q := q.Insert(t, data).0;
    }

    /** Takes the packet at the cursor, gives it up, or leaves it awaited. */
    method Pop() returns (r: PopOutcome)
      requires Valid()
      modifies this`next, this`count, this`q, slots
      ensures Valid() && q == old(q).Pop().0 && r == Cut(old(q).Pop().1)
    {
      hide Queue.Pop, Cut, Represents, SlotOf, SeqDiff, GoodWindow;
      ghost var was := slots[..];
      var i := SlotOf(next, window);
      PopMeans(was, next, head, count, q, window);
      if !started || count == 0 {
        return PopEmpty;
      }
      if slots[i].valid && slots[i].seqNo == next {
        r := PopOk(next, slots[i].data);
        slots[i] := slots[i].(valid := false);
        count := count - 1;
        next := (next + 1) % SEQ_SPACE;
      } else if SeqDiff(head, next) > hold {
        r := PopConceal;
        next := (next + 1) % SEQ_SPACE;
      } else {
        return PopWait;
      }
      PassKeeps(was, slots[..], old(next), head, old(count), q, window);
      q := q.Pop().0;
    }

    /** The range of numbers missing in front of the first buffered one. */
    method Gap() returns (found: bool, first: nat, missing: nat)
      requires Valid()
      ensures found <==> q.started && q.pending != map[] && q.next !in q.pending
      ensures found ==> first == Seq(q.next) && GapIs(q, missing) && missing < window
    {
      first, missing := 0, 0;
      if !started || count == 0 {
        return false, first, missing;
      }
      SlotOfSeq(q.next, window);
      assert Holds(slots[SlotOf(q.next, window)], q, q.next);
      var i := SlotOf(next, window);
      if slots[i].valid && slots[i].seqNo == next {
        return false, first, missing;
      }
      SeqDiffExact(q.head, q.next);
      var span := SeqDiff(head, next);
      var k := 0;
      while k < span && k < window
        invariant 0 <= k <= span && k <= window && missing == k
        invariant forall j :: q.next <= j < q.next + k ==> j !in q.pending
      {
        var s := (next + k) % SEQ_SPACE;
        SeqPlus(q.next, k);
        SlotOfSeq(q.next + k, window);
        assert Holds(slots[SlotOf(q.next + k, window)], q, q.next + k);
        var j := SlotOf(s, window);
        if slots[j].valid && slots[j].seqNo == s {
          break;
        }
        missing := missing + 1;
        k := k + 1;
      }
      if missing == 0 {
        return false, first, missing;
      }
      first := next;
      found := true;
    }
  }

  lemma SeqPlus(t: int, k: nat)
    ensures Seq(t + k) == (Seq(t) + k) % SEQ_SPACE
  {
    SeqSplit(t);
    ModShift(Seq(t) + k, t / SEQ_SPACE, SEQ_SPACE);
  }

  lemma SlotReached(base: int, i: nat, window: nat)
    requires GoodWindow(window) && i < window
    ensures SlotOf(base + (i - base) % window, window) == i
  {
    var k := (i - base) / window;
    assert i - base == k * window + (i - base) % window;
    assert base + (i - base) % window == i + (-k) * window;
    ModShift(i, -k, window);
    ModUnique(i, window, 0, i);
  }
}
