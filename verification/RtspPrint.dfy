/** Printing RTSP requests, and what the parser makes of the printed bytes. */
module RtspPrint {
  import opened Wrappers
  import opened BitStream
  import opened RtspParser

  const CRLF: Bytes := [13, 10]

  /** A request line whose parts can be told apart again. */
  predicate PlainLine(l: RequestLine) {
    && CR !in l.verb && CR !in l.uri && CR !in l.version
    && SPACE !in l.verb && SPACE !in l.uri
  }

  predicate PlainHeader(h: Header) {
    CR !in h.name && CR !in h.value && COLON !in h.name
  }

  function LineText(l: RequestLine): Bytes {
    l.verb + [32] + (l.uri + [32] + l.version)
  }

  function HeaderText(h: Header): Bytes {
    h.name + [58] + ([32] + h.value)
  }

  function HeaderLines(hs: seq<Header>): Bytes {
    if hs == [] then [] else HeaderText(hs[0]) + CRLF + HeaderLines(hs[1..])
  }

  function PrintHead(l: RequestLine, hs: seq<Header>): Bytes {
    LineText(l) + CRLF + HeaderLines(hs)
  }

  function Print(l: RequestLine, hs: seq<Header>, body: Bytes): Bytes {
    PrintHead(l, hs) + CRLF + body
  }

  // ----- what the fixed-size fields keep -----

  function CutLine(l: RequestLine): RequestLine {
    RequestLine(Bounded(l.verb, METHOD_SIZE), Bounded(l.uri, URI_SIZE), Bounded(l.version, VERSION_SIZE))
  }

  function CutHeader(h: Header): Header {
    Header(Bounded(h.name, NAME_SIZE), Bounded(h.value, VALUE_SIZE))
  }

  /** The headers there is room for. */
  function Kept(hs: seq<Header>, room: nat): seq<Header> {
    if hs == [] || room == 0 then [] else [CutHeader(hs[0])] + Kept(hs[1..], room - 1)
  }

  // ----- single lines -----

  lemma IndexOfAt(a: Bytes, c: byte, b: Bytes)
    requires c !in a
    ensures IndexOf(a + [c] + b, c) == Some(|a|)
  {
    hide IndexOf;
    var s := a + [c] + b;
    forall k | 0 <= k < |a|
      ensures s[k] != c
    {
      assert s[k] == a[k];
    }
    assert s[|a|] == c;
    assert forall r :: |a| < r <= |s| ==> s[|a|] in s[..r];
  }

  lemma LineRoundTrip(l: RequestLine)
    requires PlainLine(l)
    ensures ParseLine(LineText(l)) == CutLine(l)
  {
    hide IndexOf, Bounded;
    var tail := l.uri + [SPACE] + l.version;
    IndexOfAt(l.verb, SPACE, tail);
    IndexOfAt(l.uri, SPACE, l.version);
    assert LineText(l)[..|l.verb|] == l.verb && LineText(l)[|l.verb| + 1..] == tail;
    assert tail[..|l.uri|] == l.uri && tail[|l.uri| + 1..] == l.version;
  }

  lemma HeaderRoundTrip(h: Header)
    requires PlainHeader(h)
    ensures ParseHeader(HeaderText(h)) == Some(CutHeader(h))
  {
    hide IndexOf, Bounded;
    IndexOfAt(h.name, COLON, [SPACE] + h.value);
    assert HeaderText(h)[..|h.name|] == h.name && HeaderText(h)[|h.name| + 1..] == [SPACE] + h.value;
    assert ([SPACE] + h.value)[1..] == h.value;
  }

  /** The line end behind a text that holds no CR. */
  lemma CrlfAfter(pre: Bytes, text: Bytes, post: Bytes, end: nat)
    requires CR !in text && |pre| + |text| + 2 <= end <= |pre + text + CRLF + post|
    ensures FindCrlf(pre + text + CRLF + post, |pre|, end) == Some(|pre| + |text|)
  {
    hide FindCrlf;
    var s := pre + text + CRLF + post;
    var at := |pre| + |text|;
    assert s[at] == CR && s[at + 1] == LF;
    forall j | |pre| <= j < at
      ensures s[j] != CR
    {
      assert s[j] == text[j - |pre|];
    }
  }

  // ----- the blank line -----

  predicate PlainHeaders(hs: seq<Header>) {
    forall h <- hs :: PlainHeader(h)
  }

  /** A line that is neither empty nor holds a CR hides no blank line. */
  lemma NoTermIn(text: Bytes, post: Bytes, j: nat)
    requires text != [] && CR !in text && j < |text| + 2
    ensures TermAt(text + CRLF + post, j) ==> j == |text| && |post| >= 2 && post[0] == CR
  {
    var s := text + CRLF + post;
    if j < |text| {
      assert s[j] == text[j];
    } else if j == |text| && j + 4 <= |s| {
      assert s[j + 2] == post[0];
    } else if j == |text| + 1 && j < |s| {
      assert s[j] == LF;
    }
  }

  lemma TermShift(a: Bytes, b: Bytes, j: nat)
    ensures TermAt(a + b, |a| + j) <==> TermAt(b, j)
  {
    assert (a + b)[|a|..] == b;
  }

  lemma HeaderTextPlain(h: Header)
    requires PlainHeader(h)
    ensures CR !in HeaderText(h) && HeaderText(h) != [] && HeaderText(h)[0] != CR
  {
  }

  /** The first blank line is the one behind the last header. */
  lemma {:induction false} NoTermBefore(text: Bytes, hs: seq<Header>, rest: Bytes, j: nat)
    requires text != [] && CR !in text && PlainHeaders(hs)
    requires j + 2 < |text + CRLF + HeaderLines(hs)|
    ensures !TermAt(text + CRLF + HeaderLines(hs) + CRLF + rest, j)
    decreases |hs|
  {
    var post := HeaderLines(hs) + CRLF + rest;
    assert text + CRLF + HeaderLines(hs) + CRLF + rest == text + CRLF + post;
    if j < |text| + 2 {
      NoTermIn(text, post, j);
      if hs != [] {
        HeaderTextPlain(hs[0]);
        assert post[0] == HeaderText(hs[0])[0];
      }
    } else {
      HeaderTextPlain(hs[0]);
      TermShift(text + CRLF, post, j - |text + CRLF|);
      assert post == HeaderText(hs[0]) + CRLF + HeaderLines(hs[1..]) + CRLF + rest;
      NoTermBefore(HeaderText(hs[0]), hs[1..], rest, j - |text + CRLF|);
    }
  }

  lemma LineTextPlain(l: RequestLine)
    requires PlainLine(l)
    ensures CR !in LineText(l) && LineText(l) != []
  {
  }

  lemma {:induction false} LinesEndWithCrlf(hs: seq<Header>)
    requires hs != []
    ensures exists front :: HeaderLines(hs) == front + CRLF
  {
    if |hs| == 1 {
      assert HeaderLines(hs) == HeaderText(hs[0]) + CRLF;
    } else {
      LinesEndWithCrlf(hs[1..]);
      var front :| HeaderLines(hs[1..]) == front + CRLF;
      assert HeaderLines(hs) == (HeaderText(hs[0]) + CRLF + front) + CRLF;
    }
  }

  lemma HeadEndsWithCrlf(l: RequestLine, hs: seq<Header>)
    ensures exists front :: PrintHead(l, hs) == front + CRLF
  {
    if hs == [] {
      assert PrintHead(l, hs) == LineText(l) + CRLF;
    } else {
      LinesEndWithCrlf(hs);
      var front :| HeaderLines(hs) == front + CRLF;
      assert PrintHead(l, hs) == (LineText(l) + CRLF + front) + CRLF;
    }
  }

  lemma TermFound(l: RequestLine, hs: seq<Header>, rest: Bytes)
    requires PlainLine(l) && PlainHeaders(hs)
    ensures |PrintHead(l, hs)| >= 2
    ensures FindTerm(PrintHead(l, hs) + CRLF + rest, 0) == Some(|PrintHead(l, hs)| - 2)
  {
    hide FindTerm, LineText, HeaderLines;
    var s := PrintHead(l, hs) + CRLF + rest;
    LineTextPlain(l);
    HeadEndsWithCrlf(l, hs);
    var front :| PrintHead(l, hs) == front + CRLF;
    assert s == front + CRLF + CRLF + rest;
    assert TermAt(s, |front|);
    forall j | 0 <= j < |front|
      ensures !TermAt(s, j)
    {
      NoTermBefore(LineText(l), hs, rest, j);
    }
  }

  // ----- whole requests -----

  /** The headers found so far, and one more if there is room. */
  function Next(found: seq<Header>, h: Header): (next: seq<Header>)
    requires |found| <= MAX_HEADERS
    ensures |next| <= MAX_HEADERS
  {
    if |found| < MAX_HEADERS then found + [CutHeader(h)] else found
  }

  /** The line of a printed header is taken in one turn. */
  lemma OneHeader(pre: Bytes, h: Header, post: Bytes, found: seq<Header>)
    requires PlainHeader(h) && |post| >= 2 && |found| <= MAX_HEADERS
    ensures var head := pre + HeaderText(h) + CRLF + post;
            var next := Next(found, h);
            var behind := |pre + HeaderText(h) + CRLF|;
            ParseHeaders(head, |pre|, |head| - 4, found) == ParseHeaders(head, behind, |head| - 4, next)
  {
    hide *;
    var text := HeaderText(h);
    var head := pre + text + CRLF + post;
    HeaderTextPlain(h);
    LineBetween(pre, text, post);
    CrlfAfter(pre, text, post, |head| - 2);
    HeaderRoundTrip(h);
    HeadersStep(head, |pre|, |head| - 4, found);
    FoundNext(found, h);
  }

  lemma LineBetween(pre: Bytes, text: Bytes, post: Bytes)
    ensures |CRLF| == 2 && |pre + text + CRLF| == |pre| + |text| + 2
    ensures (pre + text + CRLF + post)[|pre|..|pre| + |text|] == text
  {
  }

  lemma FoundNext(found: seq<Header>, h: Header)
    requires |found| <= MAX_HEADERS
    ensures Found(found, Some(CutHeader(h))) == Next(found, h)
  {
    hide CutHeader;
  }

  lemma NoMoreHeaders(pre: Bytes, found: seq<Header>)
    requires |pre| >= 2 && |found| <= MAX_HEADERS
    ensures var head := pre + HeaderLines([]) + CRLF;
            ParseHeaders(head, |pre|, |head| - 4, found) == found + Kept([], MAX_HEADERS - |found|)
  {
    assert pre + HeaderLines([]) + CRLF == pre + CRLF;
    assert found + [] == found;
  }

  lemma LinesStep(pre: Bytes, hs: seq<Header>)
    requires hs != []
    ensures var text, tail := HeaderText(hs[0]), HeaderLines(hs[1..]);
      && pre + HeaderLines(hs) + CRLF == pre + text + CRLF + (tail + CRLF)
      && pre + HeaderLines(hs) + CRLF == (pre + text + CRLF) + tail + CRLF
      && |tail + CRLF| >= 2 && |pre + text + CRLF| >= 2
  {
    Regrouped(pre, HeaderText(hs[0]), HeaderLines(hs[1..]), CRLF);
    hide HeaderText;
  }

  lemma Regrouped(a: Bytes, b: Bytes, c: Bytes, e: Bytes)
    ensures a + (b + e + c) + e == a + b + e + (c + e)
    ensures a + (b + e + c) + e == (a + b + e) + c + e
  {
  }

  lemma KeptStep(hs: seq<Header>, found: seq<Header>)
    requires hs != [] && |found| <= MAX_HEADERS
    ensures var next := Next(found, hs[0]);
            found + Kept(hs, MAX_HEADERS - |found|) == next + Kept(hs[1..], MAX_HEADERS - |next|)
  {
    hide CutHeader;
  }

  lemma PlainRest(hs: seq<Header>)
    requires PlainHeaders(hs) && hs != []
    ensures PlainHeader(hs[0]) && PlainHeaders(hs[1..])
  {
    hide PlainHeader;
  }

  /** The headers of a printed head are found again, as far as there is room for them. */
  lemma {:induction false} HeadersRoundTrip(head: Bytes, pre: Bytes, hs: seq<Header>, found: seq<Header>)
    requires PlainHeaders(hs) && |found| <= MAX_HEADERS && |pre| >= 2 && head == pre + HeaderLines(hs) + CRLF
    ensures ParseHeaders(head, |pre|, |head| - 4, found) == found + Kept(hs, MAX_HEADERS - |found|)
    decreases |hs|
  {
    hide *;
    if hs == [] {
      NoMoreHeaders(pre, found);
    } else {
      var text, tail := HeaderText(hs[0]), HeaderLines(hs[1..]);
      PlainRest(hs);
      LinesStep(pre, hs);
      OneHeader(pre, hs[0], tail + CRLF, found);
      HeadersRoundTrip(head, pre + text + CRLF, hs[1..], Next(found, hs[0]));
      KeptStep(hs, found);
    }
  }

  lemma HeadRoundTrip(l: RequestLine, hs: seq<Header>)
    requires PlainLine(l) && PlainHeaders(hs)
    ensures |PrintHead(l, hs)| >= 2
    ensures ParseHead(PrintHead(l, hs) + CRLF, |PrintHead(l, hs)| - 2) == Some((CutLine(l), Kept(hs, MAX_HEADERS)))
  {
    hide ParseHeaders, ParseLine, FindCrlf, LineText, HeaderLines, CutLine, Kept;
    var head := PrintHead(l, hs) + CRLF;
    var text := LineText(l);
    LineTextPlain(l);
    assert head == [] + text + CRLF + (HeaderLines(hs) + CRLF);
    CrlfAfter([], text, HeaderLines(hs) + CRLF, |head| - 2);
    assert head[..|text|] == text;
    LineRoundTrip(l);
    assert head == (text + CRLF) + HeaderLines(hs) + CRLF;
    HeadersRoundTrip(head, text + CRLF, hs, []);
    assert [] + Kept(hs, MAX_HEADERS) == Kept(hs, MAX_HEADERS);
  }

  /** Parsing what was printed, with anything behind it, gives back the request: its line and headers
      as far as the fixed-size fields hold them, and its body when the declared length is the
      body's. */
  lemma RequestRoundTrip(l: RequestLine, hs: seq<Header>, body: Bytes, more: Bytes)
    requires PlainLine(l) && PlainHeaders(hs)
    requires var declared := ContentLength(Kept(hs, MAX_HEADERS)); |body| == if declared < 0 then 0 else declared
    ensures Parse(Print(l, hs, body) + more)
         == Some(Request(CutLine(l), Kept(hs, MAX_HEADERS), body, |Print(l, hs, body)|))
  {
    hide FindTerm, ParseHead, ContentLength, PrintHead, CutLine, Kept;
    var s := Print(l, hs, body) + more;
    var head := PrintHead(l, hs) + CRLF;
    assert s == PrintHead(l, hs) + CRLF + (body + more);
    TermFound(l, hs, body + more);
    HeadRoundTrip(l, hs);
    assert s[..|head|] == head;
    assert s[|head|..|head| + |body|] == body;
  }

  /** Part by part, in numbers: the first 15 bytes of verb and version and the first 127 of the URI come back, or
      all when they are fewer, and of the first 20 headers the first 31 bytes of each name and 383 of its value. */
  lemma PartsExactly(l: RequestLine, hs: seq<Header>, body: Bytes, more: Bytes)
    requires PlainLine(l) && PlainHeaders(hs)
    requires var declared := ContentLength(Kept(hs, MAX_HEADERS)); |body| == if declared < 0 then 0 else declared
    ensures Parse(Print(l, hs, body) + more).Some?
    ensures var r := Parse(Print(l, hs, body) + more).value;
      && r.line.verb <= l.verb && |r.line.verb| == (if |l.verb| < 15 then |l.verb| else 15)
      && r.line.uri <= l.uri && |r.line.uri| == (if |l.uri| < 127 then |l.uri| else 127)
      && r.line.version <= l.version && |r.line.version| == (if |l.version| < 15 then |l.version| else 15)
      && |r.headers| == (if |hs| < 20 then |hs| else 20)
      && (forall i :: 0 <= i < |r.headers| ==> StartOf(r.headers[i].name, hs[i].name, 31))
      && (forall i :: 0 <= i < |r.headers| ==> StartOf(r.headers[i].value, hs[i].value, 383))
      && r.body == body && r.totalLen == |Print(l, hs, body)|
  {
    RequestRoundTrip(l, hs, body, more);
    KeptExactly(hs, MAX_HEADERS);
    hide Parse, Print, Kept, ContentLength, PlainLine, PlainHeaders;
  }

  predicate StartOf(part: Bytes, whole: Bytes, size: nat) {
    part <= whole && |part| == if |whole| < size then |whole| else size
  }

  lemma {:induction false} KeptExactly(hs: seq<Header>, room: nat)
    ensures |Kept(hs, room)| == if |hs| < room then |hs| else room
    ensures forall i :: 0 <= i < |Kept(hs, room)| ==> StartOf(Kept(hs, room)[i].name, hs[i].name, 31)
    ensures forall i :: 0 <= i < |Kept(hs, room)| ==> StartOf(Kept(hs, room)[i].value, hs[i].value, 383)
    decreases room
  {
    if hs == [] || room == 0 {
    } else {
      var rest := Kept(hs[1..], room - 1);
      KeptExactly(hs[1..], room - 1);
      assert Kept(hs, room) == [CutHeader(hs[0])] + rest;
      hide Kept, StartOf;
      HeaderStart(hs[0]);
      forall i | 0 <= i < |rest| + 1
        ensures StartOf(([CutHeader(hs[0])] + rest)[i].name, hs[i].name, 31)
        ensures StartOf(([CutHeader(hs[0])] + rest)[i].value, hs[i].value, 383)
      {
        if i > 0 {
          assert ([CutHeader(hs[0])] + rest)[i] == rest[i - 1] && hs[1..][i - 1] == hs[i];
        }
      }
    }
  }

  lemma HeaderStart(h: Header)
    ensures StartOf(CutHeader(h).name, h.name, 31) && StartOf(CutHeader(h).value, h.value, 383)
  {
  }

  /** Nothing is lost of a request whose parts fit: a verb and a version of less than 16 bytes, a URI of less
      than 128, at most 20 headers, their names of less than 32 bytes and their values of less than 384. */
  lemma ExactRoundTrip(l: RequestLine, hs: seq<Header>, body: Bytes, more: Bytes)
    requires PlainLine(l) && PlainHeaders(hs) && |l.verb| < 16 && |l.uri| < 128 && |l.version| < 16 && |hs| <= 20
    requires forall h <- hs :: |h.name| < 32 && |h.value| < 384
    requires var declared := ContentLength(hs); |body| == if declared < 0 then 0 else declared
    ensures Parse(Print(l, hs, body) + more) == Some(Request(l, hs, body, |Print(l, hs, body)|))
  {
    hide Parse, Print, ContentLength, PlainLine, PlainHeaders, Kept, Bounded;
    AllKept(hs, 20);
    RequestRoundTrip(l, hs, body, more);
    WholeIfShort(l.verb, 16);
    WholeIfShort(l.uri, 128);
    WholeIfShort(l.version, 16);
  }

  lemma AllKept(hs: seq<Header>, room: nat)
    requires |hs| <= room && forall h <- hs :: |h.name| < 32 && |h.value| < 384
    ensures Kept(hs, room) == hs
  {
    KeptExactly(hs, room);
    var kept := Kept(hs, room);
    hide *;
    forall i | 0 <= i < |hs|
      ensures kept[i] == hs[i]
    {
      assert hs[i] in hs;
      WholeStart(kept[i].name, hs[i].name, 31);
      WholeStart(kept[i].value, hs[i].value, 383);
    }
  }

  lemma WholeStart(part: Bytes, whole: Bytes, size: nat)
    requires StartOf(part, whole, size) && |whole| <= size
    ensures part == whole
  {
  }

  // ----- other lines -----

  /** A request line of one word or two has the other parts empty. */
  lemma ShortLines(verb: Bytes, uri: Bytes)
    requires 32 !in verb && 32 !in uri && |verb| < 16 && |uri| < 128
    ensures ParseLine(verb) == RequestLine(verb, [], [])
    ensures ParseLine(verb + [32] + uri) == RequestLine(verb, uri, [])
  {
    NotIndexed(verb, 32);
    NotIndexed(uri, 32);
    IndexOfAt(verb, 32, uri);
    assert (verb + [32] + uri)[..|verb|] == verb && (verb + [32] + uri)[|verb| + 1..] == uri;
    WholeIfShort(verb, 16);
    WholeIfShort(uri, 128);
    hide IndexOf, Bounded;
  }

  lemma NotIndexed(s: Bytes, c: byte)
    requires c !in s
    ensures IndexOf(s, c).None?
  {
    hide IndexOf;
  }

  /** Of a header's value one leading blank is dropped, and only one; a line without a colon is no header. */
  lemma HeaderForms(name: Bytes, value: Bytes)
    requires 58 !in name && |name| < 32 && |value| < 384
    ensures ParseHeader(name).None?
    ensures ParseHeader(name + [58] + value)
         == Some(Header(name, if value != [] && value[0] == 32 then value[1..] else value))
  {
    NotIndexed(name, 58);
    IndexOfAt(name, 58, value);
    assert (name + [58] + value)[..|name|] == name && (name + [58] + value)[|name| + 1..] == value;
    hide IndexOf, Bounded;
    WholeIfShort(name, 32);
    WholeIfShort(if value != [] && value[0] == 32 then value[1..] else value, 384);
  }

  /** The comparison of names takes a letter and its other case for the same, and nothing else. */
  lemma IgnoringCase(a: Bytes, b: Bytes)
    ensures SameIgnoringCase(a, b) <==>
      && |a| == |b|
      && forall i :: 0 <= i < |a| ==>
           || a[i] == b[i]
           || (65 <= a[i] <= 90 && b[i] as int == a[i] + 32) || (65 <= b[i] <= 90 && a[i] as int == b[i] + 32)
  {
    if SameIgnoringCase(a, b) {
      forall i | 0 <= i < |a|
        ensures a[i] == b[i] || (65 <= a[i] <= 90 && b[i] as int == a[i] + 32)
                || (65 <= b[i] <= 90 && a[i] as int == b[i] + 32)
      {
        assert Lower(a[i]) == Lower(b[i]);
      }
    }
  }

  // ----- declared lengths -----

  function Decimal(n: nat): Bytes {
    if n < 10 then [48 + n] else Decimal(n / 10) + [48 + n % 10]
  }

  predicate AllDigits(s: Bytes) {
    forall c <- s :: IsDigit(c)
  }

  /** Reading on behind a number that fits adds a digit to it. */
  lemma {:induction false} DigitsSnoc(s: Bytes, c: byte, acc: nat, limit: nat)
    requires AllDigits(s) && IsDigit(c)
    ensures Digits(s + [c], acc, limit) == Digits([c], Digits(s, acc, limit), limit)
  {
    if s == [] {
      assert s + [c] == [c];
    } else {
      assert (s + [c])[1..] == s[1..] + [c];
      assert IsDigit(s[0]) && AllDigits(s[1..]);
      var v: int := s[0];
      DigitsSnoc(s[1..], c, if 10 * acc + (v - 48) > limit then limit else 10 * acc + (v - 48), limit);
    }
  }

  lemma {:induction false} DecimalRoundTrip(n: nat, limit: nat)
    requires n <= limit
    ensures Decimal(n) != [] && AllDigits(Decimal(n)) && Digits(Decimal(n), 0, limit) == n
  {
    if n < 10 {
      OneDigit(n, 0, limit);
    } else {
      var q, d := n / 10, n % 10;
      assert n == 10 * q + d;
      DecimalRoundTrip(q, limit);
      DigitsSnoc(Decimal(q), 48 + d, 0, limit);
      OneDigit(d, q, limit);
    }
  }

  /** A number that does not fit is cut off at the limit. */
  lemma {:induction false} DecimalSaturates(n: nat, limit: nat)
    requires limit >= 1
    ensures Decimal(n) != [] && AllDigits(Decimal(n))
    ensures n > limit ==> Digits(Decimal(n), 0, limit) == limit
  {
    if n <= limit {
      DecimalRoundTrip(n, limit);
    } else if n < 10 {
      assert Decimal(n)[1..] == [];
    } else {
      var q, d := n / 10, n % 10;
      assert n == 10 * q + d;
      if q <= limit {
        DecimalRoundTrip(q, limit);
      } else {
        DecimalSaturates(q, limit);
      }
      DigitsSnoc(Decimal(q), 48 + d, 0, limit);
      LastDigit(d, if q <= limit then q else limit, limit);
    }
  }

  lemma LastDigit(d: nat, acc: nat, limit: nat)
    requires d < 10 && 10 * acc + d > limit
    ensures Digits([48 + d], acc, limit) == limit
  {
    var s: Bytes := [48 + d];
    assert s[1..] == [];
    assert Digits([], limit, limit) == limit;
  }

  lemma {:induction false} DigitsStop(s: Bytes, c: byte, t: Bytes, acc: nat, limit: nat)
    requires AllDigits(s) && !IsDigit(c)
    ensures Digits(s + ([c] + t), acc, limit) == Digits(s, acc, limit)
  {
    if s == [] {
      assert s + ([c] + t) == [c] + t;
    } else {
      assert (s + ([c] + t))[1..] == s[1..] + ([c] + t);
      assert IsDigit(s[0]) && AllDigits(s[1..]);
      var v: int := s[0];
      DigitsStop(s[1..], c, t, if 10 * acc + (v - 48) > limit then limit else 10 * acc + (v - 48), limit);
    }
  }

  /** What strtol makes of white space, a sign or none, and a decimal number that ends there or in front of
      something that is no digit. */
  lemma {:induction false} LongExactly(space: Bytes, sign: Bytes, n: nat, tail: Bytes)
    requires forall c <- space :: c == 32 || 9 <= c <= 13
    requires sign == [] || sign == [43] || sign == [45]
    requires tail != [] ==> !(48 <= tail[0] <= 57)
    ensures Strtol(space + (sign + (Decimal(n) + tail)))
         == Some(if sign == [45] then (if n < 0x8000_0000 then 0 - n else -0x8000_0000)
                 else (if n < 0x7fff_ffff then n else 0x7fff_ffff))
    decreases |space|
  {
    var s := space + (sign + (Decimal(n) + tail));
    if space == [] {
      assert s == sign + (Decimal(n) + tail);
      CutOff(n, tail, 0x7fff_ffff);
      CutOff(n, tail, 0x8000_0000);
      assert sign != [] ==> s[1..] == Decimal(n) + tail && s[0] == sign[0] && s[1] == Decimal(n)[0];
      assert sign == [] ==> s == Decimal(n) + tail && s[0] == Decimal(n)[0];
      hide Digits, Decimal;
    } else {
      assert s[0] in space && s[1..] == space[1..] + (sign + (Decimal(n) + tail));
      assert forall c <- space[1..] :: c in space;
      LongExactly(space[1..], sign, n, tail);
    }
  }

  lemma CutOff(n: nat, tail: Bytes, limit: nat)
    requires limit >= 1 && (tail != [] ==> !(48 <= tail[0] <= 57))
    ensures Decimal(n) != [] && IsDigit(Decimal(n)[0])
    ensures Digits(Decimal(n) + tail, 0, limit) == if n < limit then n else limit
  {
    DecimalSaturates(n, limit);
    if n <= limit {
      DecimalRoundTrip(n, limit);
    }
    hide Decimal, Digits;
    if tail == [] {
      assert Decimal(n) + tail == Decimal(n);
    } else {
      DigitsStop(Decimal(n), tail[0], tail[1..], 0, limit);
      assert [tail[0]] + tail[1..] == tail;
    }
  }

  /** A length that is missing, no number or negative counts as none. */
  lemma NoLength(s: Bytes)
    requires Strtol(s).None? || Strtol(s).value < 0
    ensures ParseLong(s) == -1
  {
    hide Strtol;
  }

  lemma OneDigit(d: nat, acc: nat, limit: nat)
    requires d < 10 && 10 * acc + d <= limit
    ensures Digits([48 + d], acc, limit) == 10 * acc + d
  {
    var s: Bytes := [48 + d];
    assert s[1..] == [];
    assert Digits([], 10 * acc + d, limit) == 10 * acc + d;
  }

  lemma LongRoundTrip(n: nat)
    requires n <= LONG_MAX
    ensures ParseLong(CString(Decimal(n))) == n
  {
    DecimalRoundTrip(n, LONG_MAX);
    var s := Decimal(n);
    assert IsDigit(s[0]);
    assert forall c <- s :: c != 0;
    hide Decimal, Digits, AllDigits;
  }

  /** The first header that is named like Content-Length, of those there is room for, gives the
      length in decimal. */
  predicate Declares(hs: seq<Header>, k: nat, n: nat) {
    && k < |hs| && k < MAX_HEADERS
    && SameIgnoringCase(hs[k].name, CONTENT_LENGTH) && hs[k].value == Decimal(n)
    && forall j :: 0 <= j < k ==> !SameIgnoringCase(CString(CutHeader(hs[j]).name), CONTENT_LENGTH)
  }

  lemma NameKept(h: Header)
    requires SameIgnoringCase(h.name, CONTENT_LENGTH)
    ensures CString(CutHeader(h).name) == h.name
  {
    assert |CONTENT_LENGTH| == 14 && forall c <- CONTENT_LENGTH :: c >= 45;
    forall i | 0 <= i < |h.name|
      ensures h.name[i] != 0
    {
      assert Lower(CONTENT_LENGTH[i]) == Lower(h.name[i]);
      assert CONTENT_LENGTH[i] in CONTENT_LENGTH;
    }
  }

  lemma {:induction false} DecimalShort(n: nat, digits: nat)
    requires n < Pow10(digits) && digits >= 1
    ensures |Decimal(n)| <= digits
  {
    if n < 10 {
    } else {
      assert digits >= 2 by {
        assert Pow10(1) == 10;
      }
      DecimalShort(n / 10, digits - 1);
    }
  }

  function Pow10(n: nat): nat {
    if n == 0 then 1 else 10 * Pow10(n - 1)
  }

  lemma {:induction false} DeclaredFound(hs: seq<Header>, room: nat, k: nat, n: nat)
    requires k < room && n <= LONG_MAX && k < |hs|
    requires SameIgnoringCase(hs[k].name, CONTENT_LENGTH) && hs[k].value == Decimal(n)
    requires forall j :: 0 <= j < k ==> !SameIgnoringCase(CString(CutHeader(hs[j]).name), CONTENT_LENGTH)
    ensures HeaderGet(Kept(hs, room), CONTENT_LENGTH) == Some(Decimal(n))
    decreases k
  {
    hide SameIgnoringCase, CString;
    var rest := Kept(hs[1..], room - 1);
    assert Kept(hs, room)[1..] == rest;
    if k == 0 {
      NameKept(hs[0]);
      assert Pow10(10) == 1_00000_00000;
      DecimalShort(n, 10);
      hide Decimal;
    } else {
      hide CutHeader, Decimal;
      DeclaredFound(hs[1..], room - 1, k - 1, n);
    }
  }

  /** A request that declares the length of its body in decimal is parsed back, whatever follows. */
  lemma DeclaredRoundTrip(l: RequestLine, hs: seq<Header>, body: Bytes, k: nat, more: Bytes)
    requires PlainLine(l) && PlainHeaders(hs) && |body| <= LONG_MAX && Declares(hs, k, |body|)
    ensures Parse(Print(l, hs, body) + more)
         == Some(Request(CutLine(l), Kept(hs, MAX_HEADERS), body, |Print(l, hs, body)|))
  {
    hide Parse, Print, PlainLine, PlainHeaders, SameIgnoringCase, HeaderGet, Decimal, Kept,
      ParseLong, CString, CutHeader;
    DeclaredFound(hs, MAX_HEADERS, k, |body|);
    LongRoundTrip(|body|);
    RequestRoundTrip(l, hs, body, more);
  }
}
