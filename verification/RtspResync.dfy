/** Draining an oversized request that a client printed: when the loose search for the length hits
    the header itself first, the connection goes on exactly behind the request. */
module RtspResync {
  import opened Wrappers
  import opened BitStream
  import opened RtspParser
  import opened RtspPrint
  import opened RtspServer

  /** The number behind a header's name. */
  lemma NumberBehind(n: nat, t: Bytes)
    requires n <= LONG_MAX
    ensures Decimal(n) != [] && IsDigit(Decimal(n)[0]) && Strtol(Decimal(n) + ([CR] + t)) == Some(n)
  {
    DecimalRoundTrip(n, LONG_MAX);
    var s := Decimal(n) + ([CR] + t);
    assert s[0] == Decimal(n)[0] && IsDigit(s[0]);
    DigitsStop(Decimal(n), CR, t, 0, LONG_MAX);
    hide Decimal, Digits, AllDigits;
  }

  lemma {:induction false} LinesSplit(hs: seq<Header>, k: nat)
    requires k < |hs|
    ensures HeaderLines(hs) == HeaderLines(hs[..k]) + (HeaderText(hs[k]) + CRLF + HeaderLines(hs[k + 1..]))
  {
    if k == 0 {
      assert hs[..k] == [];
    } else {
      hide HeaderText;
      LinesSplit(hs[1..], k - 1);
      assert hs[1..][..k - 1] == hs[..k][1..] && hs[1..][k..] == hs[k + 1..];
    }
  }

  /** What stands behind the name of header k. */
  function BehindName(hs: seq<Header>, k: nat): Bytes
    requires k < |hs|
  {
    [COLON] + ([SPACE] + hs[k].value) + CRLF + HeaderLines(hs[k + 1..]) + CRLF
  }

  lemma HeadSplit(l: RequestLine, hs: seq<Header>, k: nat)
    requires k < |hs|
    ensures PrintHead(l, hs) + CRLF == PrintHead(l, hs[..k]) + hs[k].name + BehindName(hs, k)
  {
    LinesSplit(hs, k);
    hide HeaderLines, LineText;
    Regrouped(LineText(l), CRLF, HeaderLines(hs[..k]), hs[k].name, hs[k].value, HeaderLines(hs[k + 1..]));
  }

  lemma Regrouped(line: Bytes, end: Bytes, front: Bytes, name: Bytes, value: Bytes, rest: Bytes)
    ensures (line + end + (front + (name + [58] + ([32] + value) + end + rest))) + end
         == (line + end + front) + name + ([58] + ([32] + value) + end + rest + end)
  {
  }

  lemma BehindParts(hs: seq<Header>, k: nat) returns (later: Bytes)
    requires k < |hs|
    ensures BehindName(hs, k) == [COLON] + ([SPACE] + (hs[k].value + ([CR] + later)))
  {
    hide HeaderLines;
    later := [LF] + HeaderLines(hs[k + 1..]) + CRLF;
  }

  /** A decimal number behind one colon and one blank is the number there. */
  lemma NumberFound(front: Bytes, n: nat, later: Bytes, len: nat)
    requires n <= LONG_MAX
    requires |front| + 2 + |Decimal(n)| <= len <= |front + ([COLON] + ([SPACE] + (Decimal(n) + ([CR] + later))))|
    ensures NumberAt(front + ([COLON] + ([SPACE] + (Decimal(n) + ([CR] + later)))), |front|, len) == n
  {
    hide Decimal, Strtol;
    var at := |front|;
    var buf := front + ([COLON] + ([SPACE] + (Decimal(n) + ([CR] + later))));
    NumberBehind(n, later);
    assert buf[at + 2..] == Decimal(n) + ([CR] + later);
    assert buf[at] == COLON && buf[at + 1] == SPACE && IsDigit(buf[at + 2]);
    assert SkipSeparators(buf, at + 2, len) == at + 2;
    assert SkipSeparators(buf, at, len) == at + 2;
  }

  /** The search reads the header's own number when it hits the header first. */
  lemma SearchAgrees(l: RequestLine, hs: seq<Header>, k: nat, n: nat, behind: Bytes)
    requires n <= LONG_MAX && Declares(hs, k, n)
    requires FindKey(PrintHead(l, hs) + CRLF, CONTENT_LENGTH, 0) == Some(|PrintHead(l, hs[..k])|)
    ensures var head := PrintHead(l, hs) + CRLF; HdrScanLong(head + behind, |head|, CONTENT_LENGTH) == n
  {
    hide *;
    var head := PrintHead(l, hs) + CRLF;
    DeclaresParts(hs, k, n);
    HeadSplit(l, hs, k);
    var later := BehindParts(hs, k);
    var front := PrintHead(l, hs[..k]) + hs[k].name;
    assert (head + behind)[..|head|] == head;
    assert head + behind == front + ([COLON] + ([SPACE] + (Decimal(n) + ([CR] + (later + behind)))));
    NumberFound(front, n, later + behind, |head|);
    ScanIs(head + behind, |head|, |PrintHead(l, hs[..k])|);
  }

  lemma DeclaresParts(hs: seq<Header>, k: nat, n: nat)
    requires Declares(hs, k, n)
    ensures k < |hs| && |hs[k].name| == |CONTENT_LENGTH| && hs[k].value == Decimal(n)
  {
    hide Decimal;
  }

  lemma ScanIs(buf: Bytes, len: nat, i: nat)
    requires len <= |buf| && FindKey(buf[..len], CONTENT_LENGTH, 0) == Some(i)
    ensures HdrScanLong(buf, len, CONTENT_LENGTH) == NumberAt(buf, i + |CONTENT_LENGTH|, len)
  {
    hide FindKey, NumberAt;
  }

  /** What is thrown away then ends where the request ends. */
  lemma OversizedResyncs(l: RequestLine, hs: seq<Header>, body: Bytes, k: nat, more: Bytes)
    requires PlainLine(l) && PlainHeaders(hs) && |body| <= LONG_MAX && Declares(hs, k, |body|)
    requires |PrintHead(l, hs) + CRLF| <= RX_CAP < |Print(l, hs, body)|
    requires FindKey(PrintHead(l, hs) + CRLF, CONTENT_LENGTH, 0) == Some(|PrintHead(l, hs[..k])|)
    ensures var rx := (Print(l, hs, body) + more)[..RX_CAP];
      && FindTerm(rx, 0) == Some(|PrintHead(l, hs)| - 2)
      && Resumes(rx, |PrintHead(l, hs)| + 2) == |Print(l, hs, body)|
  {
    var rx := (Print(l, hs, body) + more)[..RX_CAP];
    var head := PrintHead(l, hs) + CRLF;
    assert rx == head + rx[|head|..];
    assert rx[..|head|] == head;
    TermFound(l, hs, rx[|head|..]);
    SearchAgrees(l, hs, k, |body|, rx[|head|..]);
    hide FindKey, HdrScanLong, FindTerm, PrintHead, PlainLine, PlainHeaders, Declares;
  }

  /** The first place in a head where the key stands. */
  predicate FirstKey(head: Bytes, i: nat) {
    KeyAt(head, CONTENT_LENGTH, i) && forall j :: 0 <= j < i ==> !KeyAt(head, CONTENT_LENGTH, j)
  }

  lemma MiddleOf(a: Bytes, b: Bytes, c: Bytes)
    requires c != []
    ensures |a| + |b| < |a + b + c| && (a + b + c)[|a|..|a| + |b|] == b
  {
  }

  lemma HeaderIsKey(l: RequestLine, hs: seq<Header>, k: nat, n: nat)
    requires Declares(hs, k, n)
    ensures KeyAt(PrintHead(l, hs) + CRLF, CONTENT_LENGTH, |PrintHead(l, hs[..k])|)
  {
    assert |hs[k].name| == |CONTENT_LENGTH| && BehindName(hs, k) != [];
    HeadSplit(l, hs, k);
    hide PrintHead, BehindName, Decimal, SameIgnoringCase;
    MiddleOf(PrintHead(l, hs[..k]), hs[k].name, BehindName(hs, k));
  }

  /** There is one, the declaring header at the latest. */
  lemma KeyIsThere(l: RequestLine, hs: seq<Header>, k: nat, n: nat) returns (i: nat)
    requires Declares(hs, k, n)
    ensures FirstKey(PrintHead(l, hs) + CRLF, i) && i <= |PrintHead(l, hs[..k])|
  {
    hide *;
    DeclaresParts(hs, k, n);
    HeaderIsKey(l, hs, k, n);
    i := FirstFrom(PrintHead(l, hs) + CRLF, 0, |PrintHead(l, hs[..k])|);
  }

  lemma FirstFrom(head: Bytes, from: nat, at: nat) returns (i: nat)
    requires from <= at && KeyAt(head, CONTENT_LENGTH, at)
    requires forall j :: 0 <= j < from ==> !KeyAt(head, CONTENT_LENGTH, j)
    ensures FirstKey(head, i) && i <= at
    decreases at - from
  {
    hide KeyAt;
    if KeyAt(head, CONTENT_LENGTH, from) {
      i := from;
    } else {
      i := FirstFrom(head, from + 1, at);
    }
  }

  /** The connection goes on where an oversized request ends exactly when the number behind the first
      occurrence of the key in its head is the length of its body. */
  lemma ResyncsIff(l: RequestLine, hs: seq<Header>, body: Bytes, k: nat, more: Bytes, i: nat)
    requires PlainLine(l) && PlainHeaders(hs) && |body| <= LONG_MAX && Declares(hs, k, |body|)
    requires |PrintHead(l, hs) + CRLF| <= RX_CAP < |Print(l, hs, body)|
    requires FirstKey(PrintHead(l, hs) + CRLF, i)
    ensures var rx := (Print(l, hs, body) + more)[..RX_CAP];
      var len := |PrintHead(l, hs) + CRLF|;
      && FindTerm(rx, 0) == Some(len - 4) && Parse(rx).None?
      && (Resumes(rx, len) == |Print(l, hs, body)| <==> NumberAt(rx, i + |CONTENT_LENGTH|, len) == |body|)
  {
    hide *;
    var rx := (Print(l, hs, body) + more)[..RX_CAP];
    var head := PrintHead(l, hs) + CRLF;
    HeadOfStream(l, hs, body, more);
    TermFound(l, hs, rx[|head|..]);
    FirstIsFound(head, i);
    HeadRoundTrip(l, hs);
    DeclaredIs(hs, k, |body|);
    Oversized(rx, |head|, |body|);
    ResumesAt(rx, |head|, i, |body|);
  }

  lemma FirstIsFound(head: Bytes, i: nat)
    requires FirstKey(head, i)
    ensures FindKey(head, CONTENT_LENGTH, 0) == Some(i)
  {
    hide KeyAt, FindKey;
    FindKeyAt(head, CONTENT_LENGTH, 0, i);
  }

  lemma HeadOfStream(l: RequestLine, hs: seq<Header>, body: Bytes, more: Bytes)
    requires |PrintHead(l, hs) + CRLF| <= RX_CAP < |Print(l, hs, body)|
    ensures var rx, head := (Print(l, hs, body) + more)[..RX_CAP], PrintHead(l, hs) + CRLF;
      && |rx| == RX_CAP && |head| == |PrintHead(l, hs)| + 2 && rx == head + rx[|head|..] && rx[..|head|] == head
      && |Print(l, hs, body)| == |head| + |body|
  {
    hide PrintHead;
  }

  lemma DeclaredIs(hs: seq<Header>, k: nat, n: nat)
    requires n <= LONG_MAX && Declares(hs, k, n)
    ensures ContentLength(Kept(hs, MAX_HEADERS)) == n
  {
    DeclaredFound(hs, MAX_HEADERS, k, n);
    LongRoundTrip(n);
    hide HeaderGet, ParseLong, CString, Kept, Decimal;
  }

  /** A request whose declared length does not fit is incomplete. */
  lemma Oversized(rx: Bytes, len: nat, n: nat)
    requires 4 <= len <= |rx| < len + n && FindTerm(rx, 0) == Some(len - 4)
    requires ParseHead(rx[..len], len - 4).Some? && ContentLength(ParseHead(rx[..len], len - 4).value.1) == n
    ensures Parse(rx).None?
  {
    hide FindTerm, ParseHead, ContentLength;
  }

  /** Where the connection goes on, by the number behind the key. */
  lemma ResumesAt(rx: Bytes, len: nat, i: nat, n: nat)
    requires len <= |rx| < len + n && FindKey(rx[..len], CONTENT_LENGTH, 0) == Some(i)
    ensures Resumes(rx, len) == len + n <==> NumberAt(rx, i + |CONTENT_LENGTH|, len) == n
  {
    hide FindKey, NumberAt;
  }
}
