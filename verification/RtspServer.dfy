/** The receive loop of the RTSP server: a fixed buffer that collects bytes, dispatches every
    complete request in it and moves the rest down. */
module RtspServer {
  import opened Wrappers
  import opened BitStream
  import opened RtspParser

  const RX_CAP := 2048

  const TEARDOWN: Bytes := [84, 69, 65, 82, 68, 79, 87, 78]

  predicate IsTeardown(r: Request) {
    CString(r.line.verb) == TEARDOWN
  }

  lemma TeardownName(r: Request)
    ensures IsTeardown(r) <==> Spells(CString(r.line.verb), "TEARDOWN")
  {
    assert Spells(TEARDOWN, "TEARDOWN");
    hide CString;
  }

  /** What a whole byte stream asks for: its requests in order up to and including the first
      TEARDOWN, whether there was one, and the bytes no request has taken. */
  function Requests(stream: Bytes): (r: (seq<Request>, bool, Bytes))
    decreases |stream|
  {
    match Parse(stream)
    case None => ([], false, stream)
    case Some(req) =>
      if IsTeardown(req) then ([req], true, stream[req.totalLen..])
      else
        var (more, closed, rest) := Requests(stream[req.totalLen..]);
        ([req] + more, closed, rest)
  }

  /** Every request of the stream fits the buffer, and what trails behind does not fill it. */
  predicate Fits(stream: Bytes)
    decreases |stream|
  {
    match Parse(stream)
    case None => |stream| < RX_CAP
    case Some(req) => req.totalLen <= RX_CAP && (IsTeardown(req) || Fits(stream[req.totalLen..]))
  }

  /** One turn of the dispatching loop. */
  lemma RequestsStep(buf: Bytes)
    ensures Parse(buf).None? ==> Requests(buf) == ([], false, buf)
    ensures Parse(buf).Some? ==>
      var req := Parse(buf).value;
      var later := Requests(buf[req.totalLen..]);
      && Requests(buf).0 == [req] + (if IsTeardown(req) then [] else later.0)
      && Requests(buf).1 == (IsTeardown(req) || later.1)
      && (!IsTeardown(req) ==> Requests(buf).2 == later.2)
  {
    hide Parse, IsTeardown;
  }

  /** Dispatching a beginning of the stream and going on with what it left is dispatching the
      stream. */
  lemma {:induction false} RequestsSplit(a: Bytes, b: Bytes)
    ensures var (done, closed, rest) := Requests(a);
            && Requests(a + b).0 == done + (if closed then [] else Requests(rest + b).0)
            && Requests(a + b).1 == (closed || Requests(rest + b).1)
            && (!closed ==> Requests(a + b).2 == Requests(rest + b).2)
    decreases |a|
  {
    RequestsStep(a);
    RequestsStep(a + b);
    hide Parse, IsTeardown, Requests;
    if Parse(a).None? {
    } else {
      var req := Parse(a).value;
      ParseStable(a, b);
      assert (a + b)[req.totalLen..] == a[req.totalLen..] + b;
      if !IsTeardown(req) {
        RequestsSplit(a[req.totalLen..], b);
      }
    }
  }

  /** What a beginning of a fitting stream leaves is shorter than the buffer. */
  lemma {:induction false} LeftoverFits(a: Bytes, b: Bytes)
    requires Fits(a + b)
    ensures var (_, closed, rest) := Requests(a); !closed ==> |rest| < RX_CAP
    decreases |a|
  {
    hide Parse, IsTeardown;
    match Parse(a)
    case Some(req) =>
      ParseStable(a, b);
      assert (a + b)[req.totalLen..] == a[req.totalLen..] + b;
      if !IsTeardown(req) {
        LeftoverFits(a[req.totalLen..], b);
      }
    case None =>
      if Parse(a + b).Some? {
        var total := Parse(a + b).value.totalLen;
        if |a| >= total {
          ParseNeedsOnlyItsBytes(a + b);
          ParseStable((a + b)[..total], a[total..]);
          assert (a + b)[..total] + a[total..] == a;
        }
      }
  }

  /** What a dispatching turn leaves is an incomplete request. */
  lemma {:induction false} LeftoverIncomplete(a: Bytes)
    ensures !Requests(a).1 ==> Parse(Requests(a).2).None?
    decreases |a|
  {
    RequestsStep(a);
    hide Parse, IsTeardown, Requests;
    if Parse(a).None? {
    } else {
      LeftoverIncomplete(a[Parse(a).value.totalLen..]);
    }
  }

  lemma NothingReceived()
    ensures Requests([]) == ([], false, [])
  {
    assert Parse([]).None?;
  }

  // ----- requests larger than the buffer -----

  /** Whether `key` stands at i, ignoring case. The code looks for it anywhere, not only at the
      start of a line. */
  predicate KeyAt(buf: Bytes, key: Bytes, i: nat) {
    i + |key| < |buf| && SameIgnoringCase(buf[i..i + |key|], key)
  }

  function FindKey(buf: Bytes, key: Bytes, i: nat): (r: Option<nat>)
    ensures r.Some? ==> KeyAt(buf, key, r.value)
    decreases |buf| - i
  {
    if i + |key| >= |buf| then None else if KeyAt(buf, key, i) then Some(i) else FindKey(buf, key, i + 1)
  }

  /** Past the separators from i on, but not past `end`. */
  function SkipSeparators(buf: Bytes, i: nat, end: nat): (j: nat)
    requires i <= end <= |buf|
    ensures i <= j <= end && forall k :: i <= k < j ==> buf[k] == 58 || buf[k] == 32 || buf[k] == 9
    ensures j < end ==> buf[j] != 58 && buf[j] != 32 && buf[j] != 9
    decreases end - i
  {
    if i < end && (buf[i] == COLON || buf[i] == SPACE || buf[i] == 9) then SkipSeparators(buf, i + 1, end) else i
  }

  /** The number behind the first place in the first `len` bytes where the key is found; -1 when it is
      not. Only the search is bounded, reading the number is not. */
  function HdrScanLong(buf: Bytes, len: nat, key: Bytes): int
    requires len <= |buf|
  {
    match FindKey(buf[..len], key, 0)
    case None => -1
    case Some(i) => NumberAt(buf, i + |key|, len)
  }

  predicate NameAt(buf: Bytes, key: Bytes, j: nat) {
    j + |key| <= |buf| && SameIgnoringCase(buf[j..j + |key|], key)
  }

  /** The search, in plain words: the first place where the key stands with at least one byte of the block behind
      it, whatever its case and whatever is in front of it; then colons, blanks and tabs are passed, and what
      strtol makes of the rest counts, 0 if it is no number. */
  lemma ScanExactly(buf: Bytes, len: nat, key: Bytes, i: nat) returns (at: nat)
    requires len <= |buf| && i + |key| < len && NameAt(buf, key, i)
    requires forall j :: 0 <= j < i ==> !NameAt(buf, key, j)
    ensures i + |key| <= at <= len
    ensures forall k :: i + |key| <= k < at ==> buf[k] == 58 || buf[k] == 32 || buf[k] == 9
    ensures at < len ==> buf[at] != 58 && buf[at] != 32 && buf[at] != 9
    ensures HdrScanLong(buf, len, key) == if Strtol(buf[at..]).None? then 0 else Strtol(buf[at..]).value
  {
    hide NameAt, Strtol, KeyAt, FindKey;
    KeyInBlock(buf, len, key, i);
    forall j | 0 <= j < i
      ensures !KeyAt(buf[..len], key, j)
    {
      KeyInBlock(buf, len, key, j);
    }
    FindKeyAt(buf[..len], key, 0, i);
    at := SkipSeparators(buf, i + |key|, len);
  }

  /** Without such a place the answer is -1. */
  lemma ScanMisses(buf: Bytes, len: nat, key: Bytes)
    requires len <= |buf| && forall j :: 0 <= j && j + |key| < len ==> !NameAt(buf, key, j)
    ensures HdrScanLong(buf, len, key) == -1
  {
    hide NameAt, KeyAt, FindKey;
    forall j: nat | j + |key| < len
      ensures !KeyAt(buf[..len], key, j)
    {
      KeyInBlock(buf, len, key, j);
    }
    NoKey(buf[..len], key, 0);
  }

  lemma KeyInBlock(buf: Bytes, len: nat, key: Bytes, j: nat)
    requires len <= |buf|
    ensures KeyAt(buf[..len], key, j) <==> j + |key| < len && NameAt(buf, key, j)
  {
    hide SameIgnoringCase;
    if j + |key| < len {
      assert buf[..len][j..j + |key|] == buf[j..j + |key|];
    }
  }

  lemma {:induction false} NoKey(buf: Bytes, key: Bytes, i: nat)
    requires forall j :: i <= j && j + |key| < |buf| ==> !KeyAt(buf, key, j)
    ensures FindKey(buf, key, i).None?
    decreases |buf| - i
  {
    hide KeyAt;
    if i + |key| >= |buf| {
    } else {
      NoKey(buf, key, i + 1);
    }
  }

  /** The number behind the separators at i; 0 when there is none. */
  function NumberAt(buf: Bytes, i: nat, len: nat): int
    requires i <= len <= |buf|
  {
    match Strtol(buf[SkipSeparators(buf, i, len)..])
    case None => 0
    case Some(n) => n
  }

  /** With the buffer full and a request in it incomplete, the bytes still to be thrown away. */
  function ToDrain(rx: Bytes, headLen: nat): int
    requires headLen <= |rx|
  {
    var clen := HdrScanLong(rx, headLen, CONTENT_LENGTH);
    if clen > 0 then clen - (|rx| - headLen) else 0
  }

  /** Where in the stream the connection goes on after a complete drain. */
  function Resumes(rx: Bytes, headLen: nat): int
    requires headLen <= |rx|
  {
    var drain := ToDrain(rx, headLen);
    |rx| + if drain > 0 then drain else 0
  }

  /** Throws away what is left of an oversized body in pieces of at most 512 bytes, of whatever sizes
      they arrive in; gives up when the peer is gone. */
  method DrainBody(toDrain: int, pieces: seq<nat>) returns (drained: nat)
    ensures drained <= if toDrain > 0 then toDrain else 0
    ensures drained < toDrain ==> |pieces| < toDrain || 0 in pieces
  {
    var left := toDrain;
    drained := 0;
    var i := 0;
    while left > 0 && i < |pieces|
      invariant drained + left == toDrain && i <= |pieces|
      invariant (if toDrain > 0 then left >= 0 else drained == 0) && i <= drained
      invariant 0 !in pieces[..i]
    {
      var want := if left < 512 then left else 512;
      var n := if pieces[i] < want then pieces[i] else want;
      if n == 0 {
        break;
      }
      left := left - n;
      drained := drained + n;
      i := i + 1;
    }
  }

  /** After a complete drain the connection goes on at the end of the oversized request exactly when
      the loose search for its length finds what the parser would. */
  lemma ResyncIff(stream: Bytes, term: nat)
    requires |stream| >= RX_CAP && FindTerm(stream[..RX_CAP], 0) == Some(term) && Parse(stream[..RX_CAP]).None?
    ensures
      var rx := stream[..RX_CAP];
      var head := rx[..term + 4];
      && ParseHead(head, term).Some?
      && var declared := ContentLength(ParseHead(head, term).value.1);
         && term + 4 + declared > RX_CAP
         && (Resumes(rx, term + 4) == term + 4 + declared
             <==> HdrScanLong(rx, term + 4, CONTENT_LENGTH) == declared)
  {
    var rx := stream[..RX_CAP];
    HeadParses(rx[..term + 4], term);
    Incomplete(rx, term);
    hide HdrScanLong, ContentLength, ParseHead, FindTerm, Parse;
  }

  /** A request is incomplete for want of body bytes only. */
  lemma Incomplete(rx: Bytes, term: nat)
    requires FindTerm(rx, 0) == Some(term) && Parse(rx).None? && ParseHead(rx[..term + 4], term).Some?
    ensures term + 4 + ContentLength(ParseHead(rx[..term + 4], term).value.1) > |rx|
  {
    hide ContentLength, ParseHead, FindTerm;
  }

  /** A header block that ends with a blank line has a request line. */
  lemma HeadParses(head: Bytes, term: nat)
    requires TermAt(head, term) && term + 4 == |head|
    ensures ParseHead(head, term).Some?
  {
    hide FindCrlf, ParseLine, ParseHeaders;
  }

  /** A request "A" with the headers XContent-Length:1 and Content-Length:9999. */
  const LOOSE: Bytes :=
    [65, 13, 10] + ([88] + CONTENT_LENGTH + [58, 49, 13, 10]) +
    (CONTENT_LENGTH + [58, 57, 57, 57, 57, 13, 10]) + [13, 10]

  /** The search and the parser can disagree: the search finds the key inside a longer name. A full buffer
      that starts with this head is an incomplete request, and after the drain the connection does not go on
      at its end. */
  lemma LooseSearchDisagrees(rx: Bytes)
    requires |rx| == RX_CAP && |LOOSE| == 45 && rx[..45] == LOOSE
    ensures FindTerm(rx, 0) == Some(41) && Parse(rx).None?
    ensures ParseHead(LOOSE, 41).Some? && ContentLength(ParseHead(LOOSE, 41).value.1) == 9999
    ensures HdrScanLong(rx, 45, CONTENT_LENGTH) == 1 && Resumes(rx, 45) == RX_CAP < 45 + 9999
  {
    hide *;
    Capacity();
    LooseParsed();
    LooseScanned(rx);
    assert rx == LOOSE + rx[45..];
    FindTermStable(LOOSE, rx[45..], 0);
    TooLong(rx, 41);
    GoesOnAt(rx, 45, 1);
  }

  lemma Capacity()
    ensures RX_CAP == 2048
  {
  }

  /** A request whose body does not fit what is there is incomplete. */
  lemma TooLong(rx: Bytes, term: nat)
    requires FindTerm(rx, 0) == Some(term) && term + 4 <= |rx| && ParseHead(rx[..term + 4], term).Some?
    requires term + 4 + ContentLength(ParseHead(rx[..term + 4], term).value.1) > |rx|
    ensures Parse(rx).None?
  {
    hide ContentLength, ParseHead, FindTerm;
  }

  /** With no more declared than is there, the connection goes on behind the buffer. */
  lemma GoesOnAt(rx: Bytes, headLen: nat, declared: nat)
    requires |rx| == RX_CAP && headLen <= RX_CAP && HdrScanLong(rx, headLen, CONTENT_LENGTH) == declared
    requires headLen + declared <= RX_CAP
    ensures Resumes(rx, headLen) == RX_CAP
  {
    hide HdrScanLong;
  }

  lemma LooseScanned(rx: Bytes)
    requires |rx| >= |LOOSE| == 45 && rx[..45] == LOOSE
    ensures HdrScanLong(rx, 45, CONTENT_LENGTH) == 1
  {
    LooseKey();
    LooseNumber(rx);
    hide FindKey, NumberAt, LOOSE;
  }

  lemma LooseNumber(rx: Bytes)
    requires |rx| >= 45 && rx[..45] == LOOSE
    ensures |CONTENT_LENGTH| == 14 && NumberAt(rx, 18, 45) == 1
  {
    assert rx[18] == LOOSE[18] == 58 && rx[19] == LOOSE[19] == 49 && rx[20] == LOOSE[20] == 13;
    assert SkipSeparators(rx, 18, 45) == 19;
    var v := rx[19..];
    assert v[0] == 49 && v[1..][0] == 13;
    assert Digits(v, 0, LONG_MAX) == 1;
  }

  lemma LooseKey()
    ensures FindKey(LOOSE, CONTENT_LENGTH, 0) == Some(4)
  {
    var buf, key := LOOSE, CONTENT_LENGTH;
    assert |key| == 14 && key[0] == 67;
    assert buf[0] == 65 && buf[1] == 13 && buf[2] == 10 && buf[3] == 88;
    forall i | 0 <= i < 4
      ensures !KeyAt(buf, key, i)
    {
      assert buf[i..i + 14][0] == buf[i];
    }
    assert buf[4..18] == key;
    assert KeyAt(buf, key, 4);
    FindKeyAt(buf, key, 0, 4);
  }

  lemma KeyFits(buf: Bytes, key: Bytes, i: nat)
    requires KeyAt(buf, key, i)
    ensures i + |key| < |buf|
  {
  }

  lemma {:induction false} FindKeyAt(buf: Bytes, key: Bytes, i: nat, at: nat)
    requires i <= at && KeyAt(buf, key, at) && forall j :: i <= j < at ==> !KeyAt(buf, key, j)
    ensures FindKey(buf, key, i) == Some(at)
    decreases at - i
  {
    hide KeyAt;
    KeyFits(buf, key, at);
    if i == at {
    } else {
      FindKeyAt(buf, key, i + 1, at);
    }
  }

  const LINE1: Bytes := [88] + CONTENT_LENGTH + [58, 49]
  const LINE2: Bytes := CONTENT_LENGTH + [58, 57, 57, 57, 57]

  /** Where the line ends of LOOSE are, and what stands between them. */
  predicate Loose(buf: Bytes) {
    && |buf| == 45 && buf[1] == buf[20] == buf[41] == buf[43] == CR && buf[2] == buf[21] == buf[42] == buf[44] == LF
    && buf[3] != CR && buf[22] != CR
    && (forall j :: 0 <= j < 41 && j != 1 && j != 20 ==> buf[j] != CR)
    && buf[3..20] == LINE1 && buf[22..41] == LINE2
  }

  lemma LooseLines(buf: Bytes)
    requires Loose(buf)
    ensures FindTerm(buf, 0) == Some(41) && FindCrlf(buf, 0, 43) == Some(1)
    ensures FindCrlf(buf, 3, 43) == Some(20) && FindCrlf(buf, 22, 43) == Some(41)
  {
    assert TermAt(buf, 41);
  }

  lemma LooseHeaders()
    ensures ParseHeader(LINE1).Some? && |ParseHeader(LINE1).value.name| == 15 && 0 !in ParseHeader(LINE1).value.name
    ensures ParseHeader(LINE2) == Some(Header(CONTENT_LENGTH, [57, 57, 57, 57]))
  {
    assert LINE1[15] == COLON && LINE2[14] == COLON;
    assert forall j :: 0 <= j < 15 ==> LINE1[j] != COLON && LINE1[j] != 0;
    assert forall j :: 0 <= j < 14 ==> LINE2[j] != COLON;
    assert IndexOf(LINE1, COLON) == Some(15);
    assert IndexOf(LINE2, COLON) == Some(14);
    assert LINE2[..14] == CONTENT_LENGTH && LINE2[15..] == [57, 57, 57, 57];
  }

  lemma LooseShape()
    ensures Loose(LOOSE) && |LOOSE| == 45
  {
  }

  lemma LooseParsed()
    ensures FindTerm(LOOSE, 0) == Some(41) && ParseHead(LOOSE, 41).Some?
    ensures ContentLength(ParseHead(LOOSE, 41).value.1) == 9999
  {
    hide *;
    LooseShape();
    LooseLines(LOOSE);
    LooseHeaders();
    LooseValue(LOOSE);
  }

  lemma LooseValue(buf: Bytes)
    requires Loose(buf) && FindCrlf(buf, 0, 43) == Some(1)
    requires FindCrlf(buf, 3, 43) == Some(20) && FindCrlf(buf, 22, 43) == Some(41)
    requires ParseHeader(LINE1).Some? && |ParseHeader(LINE1).value.name| == 15 && 0 !in ParseHeader(LINE1).value.name
    requires ParseHeader(LINE2) == Some(Header(CONTENT_LENGTH, [57, 57, 57, 57]))
    ensures ParseHead(buf, 41).Some? && ContentLength(ParseHead(buf, 41).value.1) == 9999
  {
    hide ParseHeader, FindCrlf, ParseLine, ContentLength;
    var h1, h2 := ParseHeader(LINE1).value, ParseHeader(LINE2).value;
    assert [] + [h1] == [h1] && [h1] + [h2] == [h1, h2];
    assert ParseHeaders(buf, 43, 41, [h1, h2]) == [h1, h2];
    assert ParseHeaders(buf, 22, 41, [h1]) == [h1, h2];
    assert ParseHeaders(buf, 3, 41, []) == [h1, h2];
    LooseLookUp(h1, h2);
  }

  lemma LooseLookUp(h1: Header, h2: Header)
    requires |h1.name| == 15 && 0 !in h1.name && h2 == Header(CONTENT_LENGTH, [57, 57, 57, 57])
    ensures ContentLength([h1, h2]) == 9999
  {
    hide ParseLong, CString;
    NoNul(h1.name);
    assert 0 !in CONTENT_LENGTH && |CONTENT_LENGTH| == 14;
    NoNul(h2.name);
    NoNul(h2.value);
    assert [h1, h2][1..] == [h2];
    assert HeaderGet([h2], CONTENT_LENGTH) == Some(h2.value);
    Nines();
  }

  lemma NoNul(s: Bytes)
    requires 0 !in s
    ensures CString(s) == s
  {
  }

  lemma Nines()
    ensures ParseLong([57, 57, 57, 57]) == 9999
  {
    var s: Bytes := [57, 57, 57, 57];
    assert s[1..] == [57, 57, 57] && s[1..][1..] == [57, 57] && s[1..][1..][1..] == [57] && s[1..][1..][1..][1..] == [];
    assert Digits([57], 999, LONG_MAX) == Digits([], 9999, LONG_MAX) == 9999;
    assert Digits([57, 57], 99, LONG_MAX) == 9999;
    assert Digits([57, 57, 57], 9, LONG_MAX) == 9999;
    assert Digits(s, 0, LONG_MAX) == 9999;
  }

  /** The dispatching loop with `buf` left of what was pending: what the rest asks for is still to come. */
  ghost predicate OnTheWay(pending: Bytes, start: seq<Request>, buf: Bytes, dispatched: seq<Request>, closed: bool) {
    && start + Requests(pending).0 == dispatched + (if closed then [] else Requests(buf).0)
    && Requests(pending).1 == (closed || Requests(buf).1)
    && (!closed ==> Requests(pending).2 == Requests(buf).2)
  }

  lemma NothingDispatched(pending: Bytes, start: seq<Request>)
    ensures OnTheWay(pending, start, pending, start, false)
  {
  }

  lemma TurnKeeps(pending: Bytes, start: seq<Request>, buf: Bytes, dispatched: seq<Request>)
    requires OnTheWay(pending, start, buf, dispatched, false) && Parse(buf).Some?
    ensures var req := Parse(buf).value;
      OnTheWay(pending, start, buf[req.totalLen..], dispatched + [req], IsTeardown(req))
  {
    RequestsStep(buf);
    hide Requests, Parse, IsTeardown;
  }

  /** The loop ends with an incomplete request or behind a TEARDOWN. */
  lemma AllDispatched(pending: Bytes, start: seq<Request>, buf: Bytes, dispatched: seq<Request>, closed: bool)
    requires OnTheWay(pending, start, buf, dispatched, closed) && (closed || Parse(buf).None?)
    ensures dispatched == start + Requests(pending).0 && Requests(pending).1 == closed
    ensures !closed ==> buf == Requests(pending).2
  {
    RequestsStep(buf);
    hide Requests, Parse, IsTeardown;
    assert dispatched + [] == dispatched;
  }

  class Connection {
    const rx: array<byte>
    var used: nat
    var open: bool
    var dispatched: seq<Request>
    var rejected: bool
    ghost var received: Bytes
    ghost var earlier: seq<Request>

    /** What has been dispatched is, behind what was dispatched earlier, what the bytes received since ask
        for. */
    ghost predicate Valid()
      reads this, rx
    {
      && rx.Length == RX_CAP && used <= RX_CAP
      && dispatched == earlier + Requests(received).0 && open == (!rejected && !Requests(received).1)
      && (open ==> rx[..used] == Requests(received).2)
    }

    constructor ()
      ensures Valid() && fresh(rx) && open && received == [] && earlier == [] && dispatched == [] && used == 0
    {
      rx := new byte[RX_CAP];
      used, open, dispatched, received, earlier, rejected := 0, true, [], [], [], false;
    }

    /** One recv of at most the free space, and every complete request it completes. */
    method Receive(chunk: Bytes)
      requires Valid() && open && 1 <= |chunk| <= RX_CAP - used
      modifies this`used, this`open, this`dispatched, this`received, rx
      ensures Valid() && received == old(received) + chunk
    {
      hide Requests, Parse, IsTeardown;
      RequestsSplit(received, chunk);
      ghost var pending := rx[..used] + chunk;
      forall i | 0 <= i < |chunk| {
        rx[used + i] := chunk[i];
      }
      used := used + |chunk|;
      assert rx[..used] == pending;
      var closeConn := DispatchAll();
      if closeConn {
        open := false;
      }
      assert earlier + (Requests(old(received)).0 + (if Requests(old(received)).1 then [] else Requests(pending).0))
          == dispatched;
      received := received + chunk;
    }

    /** Drops the first `consumed` bytes and moves the rest to the front. */
    method MoveDown(consumed: nat)
      requires consumed <= used <= rx.Length
      modifies this`used, rx
      ensures used == old(used) - consumed && rx[..used] == old(rx[..used])[consumed..]
    {
      forall i | 0 <= i < used - consumed {
        rx[i] := rx[consumed + i];
      }
      used := used - consumed;
    }

    /** Dispatches every complete request in the buffer, up to a TEARDOWN, and moves the rest down. */
    method DispatchAll() returns (closeConn: bool)
      requires used <= rx.Length
      modifies this`used, this`dispatched, rx
      ensures used <= rx.Length
      ensures dispatched == old(dispatched) + Requests(old(rx[..used])).0
      ensures closeConn == Requests(old(rx[..used])).1
      ensures !closeConn ==> rx[..used] == Requests(old(rx[..used])).2
    {
      hide *;
      ghost var pending, start := rx[..used], dispatched;
      closeConn := false;
      NothingDispatched(pending, start);
      while !closeConn
        invariant used <= rx.Length
        invariant OnTheWay(pending, start, rx[..used], dispatched, closeConn)
        decreases !closeConn, used
      {
        ghost var buf, done := rx[..used], dispatched;
        var found;
        found, closeConn := DispatchOne();
        if !found {
          AllDispatched(pending, start, buf, done, false);
          return;
        }
        TurnKeeps(pending, start, buf, done);
      }
      AllDispatched(pending, start, rx[..used], dispatched, true);
    }

    /** One turn of the loop: the request at the front of the buffer, if it is complete. */
    method DispatchOne() returns (found: bool, closeConn: bool)
      requires used <= rx.Length
      modifies this`used, this`dispatched, rx
      ensures used <= rx.Length && found == Parse(old(rx[..used])).Some?
      ensures !found ==> !closeConn && rx[..used] == old(rx[..used]) && dispatched == old(dispatched)
      ensures found ==>
        var req := Parse(old(rx[..used])).value;
        && closeConn == IsTeardown(req) && dispatched == old(dispatched) + [req] && used < old(used)
        && req.totalLen <= old(used) && rx[..used] == old(rx[..used])[req.totalLen..]
    {
      hide Parse, IsTeardown;
      closeConn := false;
      var req := ParseRequest(rx[..used]);
      found := req.Some?;
      if found {
        dispatched := dispatched + [req.value];
        closeConn := IsTeardown(req.value);
        MoveDown(req.value.totalLen);
      }
    }

    /** Counts what is left in the buffer as the only bytes received. */
    ghost method Rebase()
      requires Valid() && open
      modifies this`received, this`earlier
      ensures Valid() && received == rx[..used] && earlier == dispatched && Parse(received).None?
    {
      LeftoverIncomplete(received);
      RequestsStep(rx[..used]);
      assert dispatched + [] == dispatched;
      received, earlier := rx[..used], dispatched;
      hide Requests, Parse;
    }

    /** A full buffer with an incomplete request in it. Without a header end the connection is rejected;
        otherwise the rest of the request is read and thrown away, of the `available` bytes still to come. */
    method Oversized(available: nat, sizes: seq<nat>, from: nat) returns (drained: nat, turn: nat)
      requires Valid() && open && used == RX_CAP && from <= |sizes|
      modifies this`used, this`open, this`rejected, this`received, this`earlier
      ensures Valid() && from <= turn <= |sizes| && turn - from <= drained <= available
      ensures drained > 0 ==> turn > from
      ensures FindTerm(rx[..], 0).None? ==> !open && drained == 0
      ensures FindTerm(rx[..], 0).Some? ==>
        var toDrain := ToDrain(rx[..], FindTerm(rx[..], 0).value + 4);
        && open && used == 0 && received == [] && earlier == dispatched
        && (drained <= if toDrain > 0 then toDrain else 0)
        && (drained == toDrain || toDrain <= 0 || drained == available || turn == |sizes|)
    {
      hide FindTerm, Parse, HdrScanLong;
      var term := ScanTerm(rx[..]);
      drained, turn := 0, from;
      if term.None? {
        open, rejected := false, true;
        return;
      }
      var toDrain := ToDrain(rx[..], term.value + 4);
      while drained < toDrain && drained < available && turn < |sizes|
        invariant from <= turn <= |sizes| && turn - from <= drained <= available
        invariant drained > 0 ==> turn > from
        invariant drained <= if toDrain > 0 then toDrain else 0
        decreases |sizes| - turn
      {
        var n := if sizes[turn] < 1 then 1 else sizes[turn];
        n := if n > 512 then 512 else n;
        n := if n > toDrain - drained then toDrain - drained else n;
        n := if n > available - drained then available - drained else n;
        drained := drained + n;
        turn := turn + 1;
      }
      used := 0;
      received, earlier := [], dispatched;
      NothingReceived();
      assert dispatched + [] == dispatched && rx[..used] == [];
    }

    /** The whole life of a connection: recv hands over the stream in pieces of any sizes that fit
        the free space. The buffer never fills up while a request is incomplete, and what is
        dispatched does not depend on the sizes. */
    method Serve(stream: Bytes, sizes: seq<nat>) returns (served: nat)
      requires Valid() && open && received == [] && earlier == [] && !rejected && Fits(stream)
      modifies this`used, this`open, this`dispatched, this`received, rx
      ensures Valid() && served <= |stream| && received == stream[..served]
      ensures open && served < |stream| ==> |sizes| < |stream|
      ensures served == |stream| || !open ==> dispatched == Requests(stream).0 && open == !Requests(stream).1
    {
      hide Requests, Parse, IsTeardown, Fits;
      served := 0;
      var turn := 0;
      while turn < |sizes| && open && served < |stream|
        invariant Valid() && turn <= |sizes| && turn <= served <= |stream| && received == stream[..served]
      {
        assert stream == stream[..served] + stream[served..];
        LeftoverFits(stream[..served], stream[served..]);
        var space := RX_CAP - used;
        var n := if sizes[turn] < 1 then 1 else sizes[turn];
        n := if n > space then space else n;
        n := if n > |stream| - served then |stream| - served else n;
        assert stream[..served] + stream[served..served + n] == stream[..served + n];
        Receive(stream[served..served + n]);
        served := served + n;
        turn := turn + 1;
      }
      assert stream == stream[..served] + stream[served..];
      RequestsSplit(stream[..served], stream[served..]);
      if served == |stream| {
        assert stream[..served] == stream;
      }
    }
  }
}
