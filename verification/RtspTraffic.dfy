/** Whole streams of printed requests: what the server dispatches for them. */
module RtspTraffic {
  import opened Wrappers
  import opened RtspParser
  import opened RtspPrint
  import opened RtspServer
  import opened RtspResync

  /** A request as a client means it. */
  datatype Message = Message(line: RequestLine, headers: seq<Header>, body: Bytes) {
    /** Its parts can be told apart again, and the length the kept headers declare is the body's. */
    predicate Framed() {
      && PlainLine(line) && PlainHeaders(headers)
      && |body| == BodyLength(ContentLength(Kept(headers, MAX_HEADERS)))
    }

    /** The server closes the connection behind it. */
    predicate Ends() {
      IsTeardown(Parsed())
    }

    function Text(): Bytes {
      Print(line, headers, body)
    }

    /** What the parser keeps of it. */
    function Parsed(): Request {
      Request(CutLine(line), Kept(headers, MAX_HEADERS), body, |Text()|)
    }
  }

  function BodyLength(declared: int): nat {
    if declared < 0 then 0 else declared
  }

  function PrintAll(ms: seq<Message>): Bytes {
    if ms == [] then [] else ms[0].Text() + PrintAll(ms[1..])
  }

  /** The messages a server answers: those up to and including the first TEARDOWN. */
  function Answered(ms: seq<Message>): (n: nat)
    ensures n <= |ms|
  {
    if ms == [] then 0 else if ms[0].Ends() then 1 else 1 + Answered(ms[1..])
  }

  /** Whether one of them ends the connection. */
  predicate Closes(ms: seq<Message>) {
    ms != [] && (ms[0].Ends() || Closes(ms[1..]))
  }

  lemma {:induction false} AnsweredMeaning(ms: seq<Message>)
    ensures var n := Answered(ms);
      && (forall i :: 0 <= i < n - 1 ==> !ms[i].Ends())
      && (Closes(ms) <==> n > 0 && ms[n - 1].Ends()) && (!Closes(ms) ==> n == |ms|)
  {
    hide Message.Ends;
    if ms == [] {
    } else {
      AnsweredMeaning(ms[1..]);
    }
  }

  function AllParsed(ms: seq<Message>): (rs: seq<Request>)
    ensures |rs| == |ms|
  {
    seq(|ms|, i requires 0 <= i < |ms| => ms[i].Parsed())
  }

  lemma PrintStep(ms: seq<Message>, tail: Bytes)
    requires ms != []
    ensures PrintAll(ms) + tail == ms[0].Text() + (PrintAll(ms[1..]) + tail)
  {
    hide Message.Text;
  }

  lemma AnsweredStep(ms: seq<Message>)
    requires ms != [] && !ms[0].Ends()
    ensures Answered(ms) == 1 + Answered(ms[1..]) && Closes(ms) == Closes(ms[1..])
    ensures AllParsed(ms[..Answered(ms)]) == [ms[0].Parsed()] + AllParsed(ms[1..][..Answered(ms[1..])])
  {
    hide Message.Parsed, Message.Ends;
    assert ms[..Answered(ms)][1..] == ms[1..][..Answered(ms[1..])];
  }

  /** Printing is undone message by message, whatever incomplete request follows. */
  lemma {:induction false} StreamOfRequests(ms: seq<Message>, tail: Bytes)
    requires (forall m <- ms :: m.Framed()) && Parse(tail).None?
    ensures var (done, closed, rest) := Requests(PrintAll(ms) + tail);
      && done == AllParsed(ms[..Answered(ms)])
      && closed == Closes(ms)
      && (!closed ==> rest == tail)
    decreases |ms|
  {
    if ms == [] {
      assert PrintAll(ms) + tail == tail && AllParsed(ms[..0]) == [];
      hide Parse, Requests;
      RequestsStep(tail);
    } else {
      hide *;
      var m, later := ms[0], PrintAll(ms[1..]) + tail;
      assert m in ms && m.Framed();
      PrintStep(ms, tail);
      Next(m, later);
      if m.Ends() {
        LastAnswered(ms);
        assert [m.Parsed()] + [] == [m.Parsed()];
      } else {
        StreamOfRequests(ms[1..], tail);
        AnsweredStep(ms);
      }
    }
  }

  lemma LastAnswered(ms: seq<Message>)
    requires ms != [] && ms[0].Ends()
    ensures Answered(ms) == 1 && Closes(ms) && AllParsed(ms[..1]) == [ms[0].Parsed()]
  {
    hide Message.Parsed, Message.Ends;
  }

  /** A printed message at the front of a stream is dispatched first. */
  lemma Next(m: Message, later: Bytes)
    requires m.Framed()
    ensures Parse(m.Text() + later) == Some(m.Parsed())
    ensures Requests(m.Text() + later).0
         == [m.Parsed()] + if m.Ends() then [] else Requests(later).0
    ensures Requests(m.Text() + later).1 == (m.Ends() || Requests(later).1)
    ensures !m.Ends() ==> Requests(m.Text() + later).2 == Requests(later).2
  {
    RequestRoundTrip(m.line, m.headers, m.body, later);
    RequestsStep(m.Text() + later);
    hide Requests, Parse, IsTeardown, Print, CutLine, Kept;
    assert (m.Text() + later)[|m.Text()|..] == later;
  }

  /** Such a stream fits the buffer when each message does. */
  lemma {:induction false} PrintedFits(ms: seq<Message>, tail: Bytes)
    requires (forall m <- ms :: m.Framed() && |m.Text()| <= RX_CAP) && Parse(tail).None? && |tail| < RX_CAP
    ensures Fits(PrintAll(ms) + tail)
    decreases |ms|
  {
    if ms == [] {
      assert PrintAll(ms) + tail == tail;
    } else {
      hide Requests, Parse, IsTeardown, PrintAll, Message.Text, Message.Framed;
      var m, later := ms[0], PrintAll(ms[1..]) + tail;
      assert m in ms && m.Framed();
      PrintStep(ms, tail);
      Next(m, later);
      PrintedFits(ms[1..], tail);
      assert (m.Text() + later)[|m.Text()|..] == later;
    }
  }

  // ----- with oversized requests -----

  /** The request is larger than the buffer, its head is not, and the number behind the first occurrence of the
      key in the head is the length of its body. */
  ghost predicate Skippable(m: Message) {
    && |PrintHead(m.line, m.headers) + CRLF| <= RX_CAP < |m.Text()| && |m.body| <= LONG_MAX
    && exists k: nat, i: nat :: Declares(m.headers, k, |m.body|) && SkippedBy(m, i)
  }

  ghost predicate SkippedBy(m: Message, i: nat)
    requires |PrintHead(m.line, m.headers) + CRLF| <= RX_CAP < |m.Text()|
  {
    var len := |PrintHead(m.line, m.headers) + CRLF|;
    && FirstKey(PrintHead(m.line, m.headers) + CRLF, i) && i + |CONTENT_LENGTH| <= len
    && NumberAt(m.Text()[..RX_CAP], i + |CONTENT_LENGTH|, len) == |m.body|
  }

  ghost predicate Servable(m: Message) {
    m.Framed() && (|m.Text()| <= RX_CAP || Skippable(m))
  }

  /** What should be dispatched for the messages: all but the oversized ones, up to the first TEARDOWN. */
  function Expected(ms: seq<Message>): seq<Request> {
    if ms == [] then []
    else if |ms[0].Text()| > RX_CAP then Expected(ms[1..])
    else if ms[0].Ends() then [ms[0].Parsed()]
    else [ms[0].Parsed()] + Expected(ms[1..])
  }

  /** Whether one of those is a TEARDOWN. */
  predicate Closing(ms: seq<Message>) {
    ms != [] && ((|ms[0].Text()| <= RX_CAP && ms[0].Ends()) || Closing(ms[1..]))
  }

  /** A full buffer that starts with an oversized message: what is thrown away ends where the message ends. */
  lemma Skips(m: Message, later: Bytes)
    requires m.Framed() && Skippable(m)
    ensures var rx := (m.Text() + later)[..RX_CAP];
      FindTerm(rx, 0).Some? && FindTerm(rx, 0).value + 4 <= RX_CAP
      && ToDrain(rx, FindTerm(rx, 0).value + 4) == |m.Text()| - RX_CAP
  {
    hide *;
    var k, i := SkippableParts(m, later);
    var rx := (m.Text() + later)[..RX_CAP];
    var len := |PrintHead(m.line, m.headers) + CRLF|;
    ResyncsIff(m.line, m.headers, m.body, k, later, i);
    DrainOf(rx, len, |m.Text()|);
  }

  lemma SkippableParts(m: Message, later: Bytes) returns (k: nat, i: nat)
    requires m.Framed() && Skippable(m)
    ensures var len := |PrintHead(m.line, m.headers) + CRLF|;
      && PlainLine(m.line) && PlainHeaders(m.headers) && |m.body| <= LONG_MAX
      && Declares(m.headers, k, |m.body|) && FirstKey(PrintHead(m.line, m.headers) + CRLF, i)
      && m.Text() == Print(m.line, m.headers, m.body) && 4 <= len <= RX_CAP < |m.Text()|
      && |(m.Text() + later)[..RX_CAP]| == RX_CAP && i + |CONTENT_LENGTH| <= len
      && NumberAt((m.Text() + later)[..RX_CAP], i + |CONTENT_LENGTH|, len) == |m.body|
  {
    hide Print, NumberAt, FirstKey, Declares, PlainLine, PlainHeaders;
    k, i :| Declares(m.headers, k, |m.body|) && SkippedBy(m, i);
    assert (m.Text() + later)[..RX_CAP] == m.Text()[..RX_CAP];
    TermFound(m.line, m.headers, []);
    hide PrintHead;
  }

  lemma DrainOf(rx: Bytes, len: nat, total: nat)
    requires len <= |rx| < total && Resumes(rx, len) == total
    ensures ToDrain(rx, len) == total - |rx|
  {
    hide ToDrain;
  }

  /** The front message, when it is whole in the first n bytes, and when it is not. */
  lemma FrontMessage(m: Message, later: Bytes, n: nat)
    requires m.Framed() && n <= |m.Text() + later|
    ensures n < |m.Text()| ==> Parse((m.Text() + later)[..n]).None?
    ensures n >= |m.Text()| ==> (m.Text() + later)[..n] == m.Text() + later[..n - |m.Text()|]
  {
    hide *;
    var s := m.Text() + later;
    if n < |m.Text()| && Parse(s[..n]).Some? {
      assert s == s[..n] + s[n..];
      ParseStable(s[..n], s[n..]);
      Next(m, later);
      TextIsAll(m);
      assert false;
    }
  }

  lemma TextIsAll(m: Message)
    ensures m.Parsed().totalLen == |m.Text()|
  {
    hide Message.Text;
  }

  /** The messages that are not whole in the first n bytes, up to a TEARDOWN. */
  function Unread(ms: seq<Message>, n: nat): (left: seq<Message>)
    ensures forall m :: m in left ==> m in ms
  {
    if ms == [] || n < |ms[0].Text()| then ms
    else if ms[0].Ends() then ms[1..]
    else Unread(ms[1..], n - |ms[0].Text()|)
  }

  /** What is dispatched for the first n bytes, no more than the buffer holds, and what is then left. */
  ghost predicate Dispatches(ms: seq<Message>, n: nat)
    requires n <= |PrintAll(ms)|
  {
    var (done, closed, rest) := Requests(PrintAll(ms)[..n]);
    var left := Unread(ms, n);
    && Expected(ms) == done + (if closed then [] else Expected(left))
    && Closing(ms) == (closed || Closing(left))
    && (!closed ==> |rest| <= n && |rest| <= |PrintAll(left)| && rest == PrintAll(left)[..|rest|]
                    && PrintAll(ms)[n - |rest|..] == PrintAll(left))
  }

  lemma {:induction false} PrefixDispatches(ms: seq<Message>, n: nat)
    requires (forall m <- ms :: m.Framed()) && n <= |PrintAll(ms)| && n <= RX_CAP
    ensures Dispatches(ms, n)
    decreases |ms|
  {
    hide *;
    if ms == [] {
      NothingToDispatch(ms, n);
    } else {
      var m, later := ms[0], PrintAll(ms[1..]);
      assert m in ms;
      PrintStep(ms, []);
      assert PrintAll(ms) == m.Text() + later by {
        assert PrintAll(ms) + [] == PrintAll(ms) && later + [] == later;
      }
      FrontMessage(m, later, n);
      if n < |m.Text()| {
        FrontIncomplete(ms, n);
      } else {
        Next(m, later[..n - |m.Text()|]);
        if m.Ends() {
          FrontEnds(ms, n);
        } else {
          PrefixDispatches(ms[1..], n - |m.Text()|);
          Prepend(ms, n);
        }
      }
    }
  }

  lemma NothingToDispatch(ms: seq<Message>, n: nat)
    requires ms == [] && n <= |PrintAll(ms)|
    ensures Dispatches(ms, n)
  {
    assert PrintAll(ms)[..n] == [];
    NothingReceived();
    hide Requests;
  }

  lemma FrontIncomplete(ms: seq<Message>, n: nat)
    requires ms != [] && n <= |PrintAll(ms)| && n < |ms[0].Text()| && Parse(PrintAll(ms)[..n]).None?
    ensures Dispatches(ms, n)
  {
    RequestsStep(PrintAll(ms)[..n]);
    hide Requests, Parse, PrintAll, Expected, Closing, Message.Text;
    assert [] + Expected(ms) == Expected(ms);
  }

  lemma FrontEnds(ms: seq<Message>, n: nat)
    requires ms != [] && |ms[0].Text()| <= n <= |PrintAll(ms)| && n <= RX_CAP && ms[0].Ends()
    requires Requests(PrintAll(ms)[..n]).0 == [ms[0].Parsed()] && Requests(PrintAll(ms)[..n]).1
    ensures Dispatches(ms, n)
  {
    hide Requests, PrintAll, Message.Text, Message.Parsed, Message.Ends;
    assert [ms[0].Parsed()] + [] == [ms[0].Parsed()];
  }

  lemma Prepend(ms: seq<Message>, n: nat)
    requires ms != [] && |ms[0].Text()| <= n <= |PrintAll(ms)| && n <= RX_CAP && !ms[0].Ends()
    requires PrintAll(ms) == ms[0].Text() + PrintAll(ms[1..])
    requires Dispatches(ms[1..], n - |ms[0].Text()|)
    requires var (done, closed, rest) := Requests(PrintAll(ms[1..])[..n - |ms[0].Text()|]);
      && Requests(PrintAll(ms)[..n]).0 == [ms[0].Parsed()] + done
      && Requests(PrintAll(ms)[..n]).1 == closed && (!closed ==> Requests(PrintAll(ms)[..n]).2 == rest)
    ensures Dispatches(ms, n)
  {
    hide Requests, PrintAll, Message.Text, Message.Parsed, Message.Ends, Expected, Closing, Unread;
    FrontWhole(ms, n);
    var k := |ms[0].Text()|;
    var (done, closed, rest) := Requests(PrintAll(ms[1..])[..n - k]);
    Regroup([ms[0].Parsed()], done, if closed then [] else Expected(Unread(ms, n)));
    if !closed {
      Behind(ms[0].Text(), PrintAll(ms[1..]), n - k - |rest|);
    }
  }

  lemma FrontWhole(ms: seq<Message>, n: nat)
    requires ms != [] && |ms[0].Text()| <= n <= RX_CAP && !ms[0].Ends()
    ensures Unread(ms, n) == Unread(ms[1..], n - |ms[0].Text()|)
    ensures Expected(ms) == [ms[0].Parsed()] + Expected(ms[1..]) && Closing(ms) == Closing(ms[1..])
  {
    hide Message.Text, Message.Parsed, Message.Ends;
  }

  lemma Regroup(before: seq<Request>, done: seq<Request>, more: seq<Request>)
    ensures before + (done + more) == (before + done) + more
  {
  }

  lemma Behind(a: Bytes, b: Bytes, k: nat)
    requires k <= |b|
    ensures (a + b)[|a| + k..] == b[k..]
  {
  }

  /** Where serving stands: the buffer holds the beginning of what is left, and what has been dispatched is what
      was expected before it. */
  ghost predicate Serving(conn: Connection, stream: Bytes, served: nat, ms: seq<Message>, left: seq<Message>)
    reads conn, conn.rx
    requires conn.Valid()
  {
    && conn.received == conn.rx[..conn.used] && conn.earlier == conn.dispatched
    && Stands(conn.received, conn.dispatched, stream, served, ms, left)
  }

  ghost predicate Stands(received: Bytes, dispatched: seq<Request>, stream: Bytes, served: nat, ms: seq<Message>,
                         left: seq<Message>) {
    && |received| <= served <= |stream| && stream[served - |received|..] == PrintAll(left)
    && received == stream[served - |received|..served] && Parse(received).None?
    && Expected(ms) == dispatched + Expected(left) && Closing(ms) == Closing(left)
    && forall m :: m in left ==> Servable(m)
  }

  /** A full buffer holds the beginning of an oversized message. */
  lemma FullIsOversized(left: seq<Message>)
    requires (forall m <- left :: Servable(m)) && RX_CAP <= |PrintAll(left)|
    requires Parse(PrintAll(left)[..RX_CAP]).None?
    ensures left != [] && |left[0].Text()| > RX_CAP && Skippable(left[0]) && left[0].Framed()
    ensures PrintAll(left) == left[0].Text() + PrintAll(left[1..])
  {
    hide Parse, Message.Text, Message.Framed, Skippable, Requests, Message.Parsed;
    assert left[0] in left;
    if |left[0].Text()| <= RX_CAP {
      FrontMessage(left[0], PrintAll(left[1..]), RX_CAP);
      Next(left[0], PrintAll(left[1..])[..RX_CAP - |left[0].Text()|]);
      assert false;
    }
  }

  /** Nothing incomplete is left of whole messages. */
  lemma WholeIsEmpty(left: seq<Message>)
    requires (forall m <- left :: Servable(m)) && Parse(PrintAll(left)).None?
    ensures left == []
  {
    hide Parse, Message.Text, Message.Framed, Skippable, Requests, Message.Parsed;
    if left != [] {
      assert left[0] in left;
      Next(left[0], PrintAll(left[1..]));
      assert false;
    }
  }

  /** One recv into the free space. */
  method ReceiveTurn(conn: Connection, stream: Bytes, served: nat, n: nat, ghost ms: seq<Message>,
                     ghost left: seq<Message>)
    returns (ghost later: seq<Message>)
    requires conn.Valid() && conn.open && !conn.rejected && Serving(conn, stream, served, ms, left)
    requires 1 <= n <= RX_CAP - conn.used && served + n <= |stream|
    modifies conn`used, conn`open, conn`dispatched, conn`received, conn`earlier, conn.rx
    ensures conn.Valid() && !conn.rejected
    ensures conn.open ==> Serving(conn, stream, served + n, ms, later)
    ensures !conn.open ==> conn.dispatched == Expected(ms) && Closing(ms)
  {
    hide Requests, Parse, Stands, PrintAll, Expected, Closing, Unread;
    TurnServes(conn.received, conn.dispatched, stream, served, n, ms, left);
    later := Unread(left, conn.used + n);
    conn.Receive(stream[served..served + n]);
    if conn.open {
      conn.Rebase();
    }
  }

  /** What n more bytes of the stream do. */
  lemma TurnServes(received: Bytes, dispatched: seq<Request>, stream: Bytes, served: nat, n: nat, ms: seq<Message>,
                   left: seq<Message>)
    requires Stands(received, dispatched, stream, served, ms, left)
    requires served + n <= |stream| && |received| + n <= RX_CAP
    ensures var (done, closed, rest) := Requests(received + stream[served..served + n]);
      && (closed ==> dispatched + done == Expected(ms) && Closing(ms))
      && (!closed ==> Stands(rest, dispatched + done, stream, served + n, ms, Unread(left, |received| + n)))
  {
    hide Requests, Parse, PrintAll, Servable, Expected, Closing, Unread;
    var now, size := received + stream[served..served + n], |received| + n;
    assert now == PrintAll(left)[..size];
    forall m | m in left
      ensures m.Framed()
    {
      ServableIsFramed(m);
    }
    PrefixDispatches(left, size);
    LeftoverIncomplete(now);
    var (done, closed, rest) := Requests(now);
    if closed {
      assert done + [] == done;
    } else {
      Regroup(dispatched, done, Expected(Unread(left, size)));
      Behind(stream[..served - |received|], PrintAll(left), size - |rest|);
      assert stream == stream[..served - |received|] + PrintAll(left);
      Within(stream, served + n - |rest|, |rest|);
    }
  }

  lemma Within(s: Bytes, from: nat, n: nat)
    requires from + n <= |s|
    ensures s[from..][..n] == s[from..from + n]
  {
  }

  lemma ServableIsFramed(m: Message)
    requires Servable(m)
    ensures m.Framed()
  {
    hide Skippable, Message.Framed;
  }

  /** One pass through the branch for a full buffer: the oversized message is gone, or the sizes have run out
      before its end. */
  method SkipTurn(conn: Connection, stream: Bytes, served: nat, sizes: seq<nat>, turn: nat, ghost ms: seq<Message>,
                  ghost left: seq<Message>)
    returns (served': nat, turn': nat)
    requires conn.Valid() && conn.open && !conn.rejected && Serving(conn, stream, served, ms, left)
    requires conn.used == RX_CAP && turn < |sizes| && turn <= served
    modifies conn`used, conn`open, conn`rejected, conn`received, conn`earlier
    ensures conn.Valid() && conn.open && !conn.rejected
    ensures turn < turn' <= |sizes| && turn' <= served' <= |stream|
    ensures left != [] && (Serving(conn, stream, served', ms, left[1..]) || (turn' == |sizes| && served' < |stream|))
  {
    hide Requests, Parse, PrintAll, Servable, Expected, Closing, Message.Text, FindTerm, ToDrain, Skippable,
      Message.Framed;
    ghost var from := served - RX_CAP;
    assert conn.rx[..] == conn.rx[..RX_CAP] == PrintAll(left)[..RX_CAP];
    FullIsOversized(left);
    ghost var m, later := left[0], PrintAll(left[1..]);
    Skips(m, later);
    var drained;
    drained, turn' := conn.Oversized(|stream| - served, sizes, turn);
    served' := served + drained;
    if drained == |m.Text()| - RX_CAP {
      assert stream[served'..] == PrintAll(left)[|m.Text()|..] == later;
      NothingPending();
      AfterSkip(left);
    }
  }

  lemma NothingPending()
    ensures Parse([]).None?
  {
  }

  lemma AfterSkip(left: seq<Message>)
    requires left != [] && |left[0].Text()| > RX_CAP && forall m <- left :: Servable(m)
    ensures Expected(left) == Expected(left[1..]) && Closing(left) == Closing(left[1..])
    ensures forall m <- left[1..] :: Servable(m)
  {
    hide Servable, Message.Text, Message.Ends, Message.Parsed;
  }

  /** The whole life of a connection over printed messages, some larger than the buffer: however recv cuts the
      stream, the requests dispatched are all but the oversized ones, up to the first TEARDOWN. */
  method ServeAll(conn: Connection, stream: Bytes, sizes: seq<nat>, ghost ms: seq<Message>) returns (served: nat)
    requires conn.Valid() && conn.open && !conn.rejected && conn.used == 0
    requires conn.received == [] && conn.earlier == [] && conn.dispatched == []
    requires stream == PrintAll(ms) && forall m <- ms :: Servable(m)
    modifies conn`used, conn`open, conn`dispatched, conn`rejected, conn`received, conn`earlier, conn.rx
    ensures conn.Valid() && served <= |stream| && (conn.open && served < |stream| ==> |sizes| < |stream|)
    ensures served == |stream| || !conn.open ==> conn.dispatched == Expected(ms) && conn.open == !Closing(ms)
  {
    hide Requests, Parse, PrintAll, Servable, Expected, Closing, Serving;
    ghost var left := ms;
    served := 0;
    var turn := 0;
    Begins(conn, stream, ms);
    while turn < |sizes| && conn.open && served < |stream|
      invariant conn.Valid() && !conn.rejected && turn <= |sizes| && turn <= served <= |stream|
      invariant conn.open ==> Serving(conn, stream, served, ms, left) || (turn == |sizes| && served < |stream|)
      invariant !conn.open ==> conn.dispatched == Expected(ms) && Closing(ms)
      decreases |sizes| - turn
    {
      if conn.used >= RX_CAP {
        served, turn := SkipTurn(conn, stream, served, sizes, turn, ms, left);
        left := left[1..];
      } else {
        var n := if sizes[turn] < 1 then 1 else sizes[turn];
        n := if n > RX_CAP - conn.used then RX_CAP - conn.used else n;
        n := if n > |stream| - served then |stream| - served else n;
        left := ReceiveTurn(conn, stream, served, n, ms, left);
        served := served + n;
        turn := turn + 1;
      }
    }
    if conn.open && served == |stream| {
      Ends(conn, stream, ms, left);
    }
  }

  lemma Begins(conn: Connection, stream: Bytes, ms: seq<Message>)
    requires conn.Valid() && conn.used == 0 && conn.received == [] && conn.earlier == conn.dispatched == []
    requires stream == PrintAll(ms) && forall m <- ms :: Servable(m)
    ensures Serving(conn, stream, 0, ms, ms)
  {
    NothingPending();
    hide Requests, Parse, PrintAll, Servable, Expected, Closing;
    assert stream[0..] == stream && conn.rx[..0] == [] && [] + Expected(ms) == Expected(ms);
  }

  lemma Ends(conn: Connection, stream: Bytes, ms: seq<Message>, left: seq<Message>)
    requires conn.Valid() && Serving(conn, stream, |stream|, ms, left)
    ensures conn.dispatched == Expected(ms) && !Closing(ms)
  {
    hide Requests, Parse, Servable;
    assert conn.received == PrintAll(left);
    WholeIsEmpty(left);
    assert conn.dispatched + [] == conn.dispatched;
  }
}
