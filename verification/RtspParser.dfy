/** Incremental parsing of RTSP requests (sections 6, 9.1 and 12.14 of RFC 2326) out of a buffer that
    may hold less or more than one request. */
module RtspParser {
  import opened Wrappers
  import opened BitStream

  type Bytes = seq<byte>

  const CR: byte := 13
  const LF: byte := 10
  const SPACE: byte := 32
  const COLON: byte := 58
  const PLUS: byte := 43
  const MINUS: byte := 45

  const MAX_HEADERS := 20
  const METHOD_SIZE := 16
  const URI_SIZE := 128
  const VERSION_SIZE := 16
  const NAME_SIZE := 32
  const VALUE_SIZE := 384

  datatype Header = Header(name: Bytes, value: Bytes)
  datatype RequestLine = RequestLine(verb: Bytes, uri: Bytes, version: Bytes)
  datatype Request = Request(line: RequestLine, headers: seq<Header>, body: Bytes, totalLen: nat)

  // ----- scanning -----

  predicate TermAt(buf: Bytes, i: nat) {
    i + 4 <= |buf| && buf[i] == CR && buf[i + 1] == LF && buf[i + 2] == CR && buf[i + 3] == LF
  }

  /** The first blank line from i on. */
  function FindTerm(buf: Bytes, i: nat): (r: Option<nat>)
    ensures r.Some? ==> i <= r.value && TermAt(buf, r.value)
    ensures r.None? ==> forall j :: i <= j ==> !TermAt(buf, j)
    ensures r.Some? ==> forall j :: i <= j < r.value ==> !TermAt(buf, j)
    decreases |buf| - i
  {
    if i + 4 > |buf| then None
    else if TermAt(buf, i) then Some(i)
    else FindTerm(buf, i + 1)
  }

  /** The first CRLF from i on that ends before `end`. */
  function FindCrlf(s: Bytes, i: nat, end: nat): (r: Option<nat>)
    requires end <= |s|
    ensures r.Some? ==> i <= r.value && r.value + 1 < end && s[r.value] == CR && s[r.value + 1] == LF
    ensures r.Some? ==> forall j :: i <= j < r.value ==> !(s[j] == CR && s[j + 1] == LF)
    ensures r.None? ==> forall j :: i <= j && j + 1 < end ==> !(s[j] == CR && s[j + 1] == LF)
    decreases end - i
  {
    if i + 1 >= end then None
    else if s[i] == CR && s[i + 1] == LF then Some(i)
    else FindCrlf(s, i + 1, end)
  }

  /** The first occurrence of c in s. */
  function IndexOf(s: Bytes, c: byte): (r: Option<nat>)
    ensures r.Some? ==> r.value < |s| && s[r.value] == c && c !in s[..r.value]
    ensures r.None? ==> c !in s
  {
    if s == [] then None
    else if s[0] == c then Some(0)
    else
      var i :- IndexOf(s[1..], c);
      assert s[..i + 1] == [s[0]] + s[1..][..i];
      Some(i + 1)
  }

  /** A copy that fits a C string buffer of the given size. */
  function Bounded(src: Bytes, size: nat): Bytes
    requires size > 0
  {
    if |src| < size - 1 then src else src[..size - 1]
  }

  lemma WholeIfShort(src: Bytes, size: nat)
    requires |src| < size
    ensures Bounded(src, size) == src
  {
  }

  /** What C string functions see of a buffer's contents. */
  function CString(s: Bytes): (t: Bytes)
    ensures t <= s && 0 !in t && (t != s ==> s[|t|] == 0)
  {
    match IndexOf(s, 0)
    case None => s
    case Some(i) => s[..i]
  }

  function Lower(c: byte): byte {
    if 65 <= c <= 90 then c + 32 else c
  }

  predicate SameIgnoringCase(a: Bytes, b: Bytes) {
    |a| == |b| && forall i :: 0 <= i < |a| ==> Lower(a[i]) == Lower(b[i])
  }

  predicate IsSpace(c: byte) {
    c == SPACE || 9 <= c <= 13
  }

  predicate IsDigit(c: byte) {
    48 <= c <= 57
  }

  const LONG_MAX := 0x7fff_ffff

  /** The decimal number at the front of s, cut off at `limit`. */
  function Digits(s: Bytes, acc: nat, limit: nat): nat {
    if s == [] || !IsDigit(s[0]) then acc
    else
      var v: int := s[0];
      Digits(s[1..], if 10 * acc + (v - 48) > limit then limit else 10 * acc + (v - 48), limit)
  }

  /** strtol in base 10: None when there is no number, otherwise its value cut off at the range of a
      32-bit long. */
  function Strtol(s: Bytes): Option<int> {
    if s == [] then None
    else if IsSpace(s[0]) then Strtol(s[1..])
    else if s[0] == PLUS || s[0] == MINUS then
      if |s| > 1 && IsDigit(s[1]) then
        Some(if s[0] == PLUS then Digits(s[1..], 0, LONG_MAX) else 0 - Digits(s[1..], 0, LONG_MAX + 1))
      else None
    else if IsDigit(s[0]) then Some(Digits(s, 0, LONG_MAX))
    else None
  }

  /** A missing or negative number is reported as -1. */
  function ParseLong(s: Bytes): int {
    match Strtol(s)
    case None => -1
    case Some(n) => if n < 0 then -1 else n
  }

  const CONTENT_LENGTH: Bytes := [67, 111, 110, 116, 101, 110, 116, 45, 76, 101, 110, 103, 116, 104]

  /** The bytes are those of the characters. */
  predicate Spells(b: Bytes, s: string) {
    |b| == |s| && forall i :: 0 <= i < |s| ==> b[i] as int == s[i] as int
  }

  // ----- the meaning of a request -----

  function ParseLine(line: Bytes): RequestLine {
    match IndexOf(line, SPACE)
    case None => RequestLine(Bounded(line, METHOD_SIZE), [], [])
    case Some(sp1) =>
      var verb, rest := Bounded(line[..sp1], METHOD_SIZE), line[sp1 + 1..];
      match IndexOf(rest, SPACE)
      case None => RequestLine(verb, Bounded(rest, URI_SIZE), [])
      case Some(sp2) => RequestLine(verb, Bounded(rest[..sp2], URI_SIZE), Bounded(rest[sp2 + 1..], VERSION_SIZE))
  }

  function ParseHeader(line: Bytes): Option<Header> {
    var colon :- IndexOf(line, COLON);
    var value := line[colon + 1..];
    var trimmed := if value != [] && value[0] == SPACE then value[1..] else value;
    Some(Header(Bounded(line[..colon], NAME_SIZE), Bounded(trimmed, VALUE_SIZE)))
  }

  /** The headers from hp on, after those already found, up to the blank line at `term`. */
  function ParseHeaders(head: Bytes, hp: nat, term: nat, found: seq<Header>): seq<Header>
    requires term + 2 <= |head|
    decreases term - hp
  {
    if hp >= term then found
    else
      match FindCrlf(head, hp, term + 2)
      case None => found
      case Some(he) =>
        if he == hp then found
        else
          ParseHeaders(head, he + 2, term, Found(found, ParseHeader(head[hp..he])))
  }

  /** A line without a colon is no header; headers beyond the twentieth are left out. */
  function Found(found: seq<Header>, h: Option<Header>): seq<Header> {
    if h.Some? && |found| < MAX_HEADERS then found + [h.value] else found
  }

  lemma ContentLengthName()
    ensures Spells(CONTENT_LENGTH, "Content-Length")
  {
  }

  function HeaderGet(headers: seq<Header>, name: Bytes): Option<Bytes> {
    if headers == [] then None
    else if SameIgnoringCase(CString(headers[0].name), name) then Some(headers[0].value)
    else HeaderGet(headers[1..], name)
  }

  function ContentLength(headers: seq<Header>): int {
    match HeaderGet(headers, CONTENT_LENGTH)
    case None => -1
    case Some(v) => ParseLong(CString(v))
  }

  /** Request line and headers of a header block that ends with the blank line at `term`. */
  function ParseHead(head: Bytes, term: nat): Option<(RequestLine, seq<Header>)>
    requires term + 4 <= |head|
  {
    var lineEnd :- FindCrlf(head, 0, term + 2);
    Some((ParseLine(head[..lineEnd]), ParseHeaders(head, lineEnd + 2, term, [])))
  }

  /** The request at the front of buf, or None when more bytes are needed. */
  function Parse(buf: Bytes): (r: Option<Request>)
    ensures r.Some? ==> 4 <= r.value.totalLen <= |buf|
  {
    var term :- FindTerm(buf, 0);
    var (line, headers) :- ParseHead(buf[..term + 4], term);
    var cl := ContentLength(headers);
    var bodyLen := if cl < 0 then 0 else cl;
    if term + 4 + bodyLen > |buf| then None
    else Some(Request(line, headers, buf[term + 4..term + 4 + bodyLen], term + 4 + bodyLen))
  }

  // ----- completed parses do not change -----

  lemma {:induction false} FindTermStable(buf: Bytes, more: Bytes, i: nat)
    requires FindTerm(buf, i).Some?
    ensures FindTerm(buf + more, i) == FindTerm(buf, i)
    decreases |buf| - i
  {
    if TermAt(buf, i) {
    } else {
      assert !TermAt(buf + more, i);
      FindTermStable(buf, more, i + 1);
    }
  }

  /** A completed parse is unchanged by the bytes that follow. */
  lemma ParseStable(buf: Bytes, more: Bytes)
    requires Parse(buf).Some?
    ensures Parse(buf + more) == Parse(buf)
  {
    hide ParseHead, ContentLength, FindTerm;
    FindTermStable(buf, more, 0);
    var term := FindTerm(buf, 0).value;
    assert (buf + more)[..term + 4] == buf[..term + 4];
    var total := Parse(buf).value.totalLen;
    assert (buf + more)[term + 4..total] == buf[term + 4..total];
  }

  /** A parse needs no byte behind the request. */
  lemma ParseNeedsOnlyItsBytes(buf: Bytes)
    requires Parse(buf).Some?
    ensures Parse(buf[..Parse(buf).value.totalLen]) == Parse(buf)
  {
    hide ParseHead, ContentLength;
    var total := Parse(buf).value.totalLen;
    var term := FindTerm(buf, 0).value;
    var own := buf[..total];
    assert TermAt(own, term);
    assert forall j :: 0 <= j < term ==> !TermAt(own, j) by {
      forall j | 0 <= j < term
        ensures !TermAt(own, j)
      {
        assert !TermAt(buf, j);
      }
    }
    assert FindTerm(own, 0) == Some(term);
    assert own[..term + 4] == buf[..term + 4];
    assert own[term + 4..total] == buf[term + 4..total];
  }

  // ----- the parser as it runs -----

  method ScanCrlf(s: Bytes, start: nat, end: nat) returns (r: Option<nat>)
    requires end <= |s|
    ensures r == FindCrlf(s, start, end)
  {
    var q := start;
    while q + 1 < end
      invariant start <= q
      invariant FindCrlf(s, start, end) == FindCrlf(s, q, end)
    {
      if s[q] == CR && s[q + 1] == LF {
        return Some(q);
      }
      q := q + 1;
    }
    r := None;
  }

  method ScanTerm(buf: Bytes) returns (r: Option<nat>)
    ensures r == FindTerm(buf, 0)
  {
    var i := 0;
    while i + 4 <= |buf|
      invariant FindTerm(buf, 0) == FindTerm(buf, i)
    {
      if buf[i] == CR && buf[i + 1] == LF && buf[i + 2] == CR && buf[i + 3] == LF {
        return Some(i);
      }
      i := i + 1;
    }
    r := None;
  }

  method LookUp(headers: seq<Header>, name: Bytes) returns (r: Option<Bytes>)
    ensures r == HeaderGet(headers, name)
  {
    var i := 0;
    while i < |headers|
      invariant 0 <= i <= |headers|
      invariant HeaderGet(headers, name) == HeaderGet(headers[i..], name)
    {
      if SameIgnoringCase(CString(headers[i].name), name) {
        return Some(headers[i].value);
      }
      assert headers[i..][1..] == headers[i + 1..];
      i := i + 1;
    }
    r := None;
  }

  /** One turn of the header loop. */
  lemma HeadersStep(head: Bytes, hp: nat, term: nat, found: seq<Header>)
    requires term + 2 <= |head|
    ensures hp >= term ==> ParseHeaders(head, hp, term, found) == found
    ensures hp < term ==>
      match FindCrlf(head, hp, term + 2)
      case None => ParseHeaders(head, hp, term, found) == found
      case Some(he) =>
        && he + 1 < term + 2
        && (if he == hp then ParseHeaders(head, hp, term, found) == found
            else hp < he && ParseHeaders(head, hp, term, found)
                         == ParseHeaders(head, he + 2, term, Found(found, ParseHeader(head[hp..he]))))
  {
    hide ParseHeader, FindCrlf;
  }

  method ScanHeaders(head: Bytes, start: nat, term: nat) returns (headers: seq<Header>)
    requires term + 2 <= |head|
    ensures headers == ParseHeaders(head, start, term, [])
  {
    hide *;
    headers := [];
    var hp := start;
    while hp < term
      invariant ParseHeaders(head, start, term, []) == ParseHeaders(head, hp, term, headers)
    {
      HeadersStep(head, hp, term, headers);
      var he := ScanCrlf(head, hp, term + 2);
      if he.None? || he.value == hp {
        break;
      }
      headers := Found(headers, ParseHeader(head[hp..he.value]));
      hp := he.value + 2;
    }
    HeadersStep(head, hp, term, headers);
  }

  method ParseRequest(buf: Bytes) returns (r: Option<Request>)
    ensures r == Parse(buf)
  {
    hide FindCrlf, ParseHeaders, ParseLine, ParseLong, CString, HeaderGet;
    var term := ScanTerm(buf);
    if term.None? {
      return None;
    }
    var t := term.value;
    var head := buf[..t + 4];
    var lineEnd := ScanCrlf(head, 0, t + 2);
    if lineEnd.None? {
      return None;
    }
    var line := ParseLine(head[..lineEnd.value]);
    var headers := ScanHeaders(head, lineEnd.value + 2, t);
    var v := LookUp(headers, CONTENT_LENGTH);
    var cl := if v.None? then -1 else ParseLong(CString(v.value));
    var bodyLen := 0;
    if cl >= 0 {
      if cl > |buf| - (t + 4) {
        return None;
      }
      bodyLen := cl;
    }
    r := Some(Request(line, headers, buf[t + 4..t + 4 + bodyLen], t + 4 + bodyLen));
  }
}
