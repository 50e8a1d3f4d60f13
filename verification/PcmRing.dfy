/** The PCM ring buffer as each side calls it: a fixed storage with a published write index and a
    published read index, proved against the stream of frames written and the number consumed. */
module PcmRing {
  import opened Arith

  /** One stereo sample pair. */
  datatype Frame = Frame(left: int, right: int)

  /** An index n places on, wrapped once as the code does. */
  function Advance(i: nat, n: nat, capacity: nat): nat {
    if i + n >= capacity then i + n - capacity else i + n
  }

  lemma AdvanceMod(x: nat, n: nat, capacity: nat)
    requires capacity > 0 && n <= capacity
    ensures Advance(x % capacity, n, capacity) == (x + n) % capacity
  {
    var q, r := x / capacity, x % capacity;
    assert x == q * capacity + r;
    if r + n >= capacity {
      ModUnique(x + n, capacity, q + 1, r + n - capacity);
    } else {
      ModUnique(x + n, capacity, q, r + n);
    }
  }

  /** Positions less than a ring apart have different slots. */
  lemma SlotsApart(i: nat, j: nat, capacity: nat)
    requires capacity > 0 && i < j < i + capacity
    ensures i % capacity != j % capacity
  {
    AdvanceMod(i, j - i, capacity);
  }

  /** Frames between the indices; equal indices mean an empty ring. */
  function Distance(head: nat, tail: nat, capacity: nat): int {
    if head >= tail then head - tail else capacity - tail + head
  }

  lemma DistanceExact(written: nat, consumed: nat, capacity: nat)
    requires capacity > 0 && consumed <= written < consumed + capacity
    ensures Distance(written % capacity, consumed % capacity, capacity) == written - consumed
  {
    AdvanceMod(consumed, written - consumed, capacity);
  }

  class RingBuf {
    const storage: array<Frame>
    const capacity: nat
    var head: nat
    var tail: nat
    ghost var written: seq<Frame>
    ghost var consumed: nat

    ghost predicate Valid()
      reads this, storage
    {
      && capacity >= 1 && storage.Length == capacity
      && consumed <= |written| < consumed + capacity
      && head == |written| % capacity && tail == consumed % capacity
      && forall i {:trigger written[i]} :: consumed <= i < |written| ==> storage[i % capacity] == written[i]
    }

    /** The frames written and not yet consumed. */
    ghost function Contents(): seq<Frame>
      requires consumed <= |written|
      reads this
    {
      written[consumed..]
    }

    constructor (storage: array<Frame>)
      requires storage.Length >= 1
      ensures Valid() && this.storage == storage && capacity == storage.Length && written == [] && consumed == 0
    {
      this.storage := storage;
      capacity := storage.Length;
      head, tail := 0, 0;
      written, consumed := [], 0;
      SmallMod(storage.Length);
    }

    method Available() returns (n: nat)
      requires Valid()
      ensures n == |Contents()|
    {
      DistanceExact(|written|, consumed, capacity);
      n := Distance(head, tail, capacity);
    }

    /** One slot stays free so that equal indices mean empty. */
    method FreeSpace() returns (n: nat)
      requires Valid()
      ensures n == capacity - 1 - |Contents()|
    {
      var a := Available();
      n := capacity - 1 - a;
    }

    /** Appends as many frames as fit, in up to two pieces; unread frames stay as they are. */
    method Write(frames: seq<Frame>) returns (n: nat)
      requires Valid()
      modifies this`head, this`written, storage
      ensures Valid()
      ensures n == if |frames| < capacity - 1 - |old(Contents())| then |frames| else capacity - 1 - |old(Contents())|
      ensures written == old(written) + frames[..n]
    {
      var space := FreeSpace();
      n := if |frames| > space then space else |frames|;
      if n == 0 {
        assert written + frames[..0] == written;
        return;
      }
      ghost var before := storage[..];
      CopyIn(frames, n);
      FilledBehind(before, storage[..], frames[..n]);
      written := written + frames[..n];
      head := head + n;
      if head >= capacity {
        head := head - capacity;
      }
    }

    /** With the slots behind the written frames filled, every unread frame, old or new, is in its slot. */
    lemma FilledBehind(before: seq<Frame>, after: seq<Frame>, added: seq<Frame>)
      requires |before| == |after| == capacity >= 1 && consumed <= |written|
      requires |written| + |added| < consumed + capacity
      requires forall i {:trigger written[i]} :: consumed <= i < |written| ==> before[i % capacity] == written[i]
      requires forall k :: 0 <= k < |added| ==> after[Advance(|written| % capacity, k, capacity)] == added[k]
      requires forall s :: 0 <= s < capacity
                 && (forall k :: 0 <= k < |added| ==> s != Advance(|written| % capacity, k, capacity))
                 ==> after[s] == before[s]
      ensures var all := written + added;
              forall i {:trigger all[i]} :: consumed <= i < |all| ==> after[i % capacity] == all[i]
      ensures Advance(|written| % capacity, |added|, capacity) == |written + added| % capacity
    {
      var w := |written|;
      hide Advance;
      forall i | consumed <= i < |written + added|
        ensures after[i % capacity] == (written + added)[i]
      {
        if i < w {
          SlotKept(w, |added|, i);
        } else {
          AdvanceMod(w, i - w, capacity);
        }
      }
      AdvanceMod(w, |added|, capacity);
    }

    /** Copies n frames to the slots from the write index on, the second piece to the start. */
    method CopyIn(frames: seq<Frame>, n: nat)
      requires 1 <= n <= |frames| && n < capacity == storage.Length && head < capacity
      modifies storage
      ensures forall k :: 0 <= k < n ==> storage[Advance(head, k, capacity)] == frames[k]
      ensures forall s :: 0 <= s < capacity && (forall k :: 0 <= k < n ==> s != Advance(head, k, capacity)) ==>
                storage[s] == old(storage[s])
    {
      var first := if capacity - head > n then n else capacity - head;
      forall i | 0 <= i < first {
        storage[head + i] := frames[i];
      }
      forall i | first <= i < n {
        storage[i - first] := frames[i];
      }
      forall k | 0 <= k < n
        ensures storage[Advance(head, k, capacity)] == frames[k]
      {
        if k >= first {
          assert Advance(head, k, capacity) == k - first;
        }
      }
      forall s | 0 <= s < capacity
        ensures (forall k :: 0 <= k < n ==> s != Advance(head, k, capacity)) ==> storage[s] == old(storage[s])
      {
        if head <= s < head + first {
          assert s == Advance(head, s - head, capacity);
        } else if s < n - first {
          assert s == Advance(head, s + first, capacity);
        }
      }
    }

    /** A slot holding an unread frame is none of those being filled. */
    lemma SlotKept(w: nat, n: nat, i: nat)
      requires capacity > 0 && i < w && w + n < i + capacity + 1
      ensures forall k :: 0 <= k < n ==> i % capacity != Advance(w % capacity, k, capacity)
    {
      forall k | 0 <= k < n
        ensures i % capacity != Advance(w % capacity, k, capacity)
      {
        AdvanceMod(w, k, capacity);
        SlotsApart(i, w + k, capacity);
      }
    }

    /** Takes up to n of the oldest frames. */
    method Read(n: nat) returns (frames: seq<Frame>)
      requires Valid()
      modifies this`tail, this`consumed
      ensures Valid()
      ensures frames == old(Contents())[..if n < |old(Contents())| then n else |old(Contents())|]
      ensures consumed == old(consumed) + |frames|
    {
      var avail := Available();
      var m := if n > avail then avail else n;
      if m == 0 {
        return [];
      }
      var first := if capacity - tail > m then m else capacity - tail;
      frames := storage[tail..tail + first] + storage[..m - first];
      forall i | 0 <= i < m
        ensures frames[i] == written[consumed + i]
      {
        AdvanceMod(consumed, i, capacity);
        assert storage[(consumed + i) % capacity] == written[consumed + i];
      }
      assert frames == Contents()[..m];
      Skip(m);
    }

    /** Discards up to n of the oldest frames. */
    method Drop(n: nat) returns (m: nat)
      requires Valid()
      modifies this`tail, this`consumed
      ensures Valid()
      ensures m == if n < |old(Contents())| then n else |old(Contents())|
      ensures consumed == old(consumed) + m
    {
      var avail := Available();
      m := if n > avail then avail else n;
      Skip(m);
    }

    /** Publishes a read index m places on. */
    method Skip(m: nat)
      requires Valid() && m <= |Contents()|
      modifies this`tail, this`consumed
      ensures Valid() && consumed == old(consumed) + m
    {
      AdvanceMod(consumed, m, capacity);
      tail := tail + m;
      if tail >= capacity {
        tail := tail - capacity;
      }
      consumed := consumed + m;
    }

    /** The oldest frame, left where it is. */
    method FirstFrame() returns (found: bool, f: Frame)
      requires Valid()
      ensures found <==> Contents() != []
      ensures found ==> f == Contents()[0]
    {
      f := Frame(0, 0);
      var avail := Available();
      found := avail != 0;
      if found {
        f := storage[tail];
        assert storage[consumed % capacity] == written[consumed];
      }
    }
  }

  lemma SmallMod(capacity: nat)
    requires capacity >= 1
    ensures 0 % capacity == 0
  {
  }
}
