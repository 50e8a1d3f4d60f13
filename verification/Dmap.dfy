/** The DMAP tag walker: containers nested in a byte string, walked to a bounded depth. */
module Dmap {
  import opened BitStream

  type Bytes = seq<byte>

  const STR_MAX := 128
  const MAX_DEPTH := 4

  const MLIT: Bytes := [109, 108, 105, 116]
  const MINM: Bytes := [109, 105, 110, 109]
  const ASAR: Bytes := [97, 115, 97, 114]
  const ASAL: Bytes := [97, 115, 97, 108]

  /** A text field: its contents and whether its tag was present. */
  datatype Field = Field(text: Bytes, present: bool)
  datatype Meta = Meta(title: Field, artist: Field, album: Field)

  const EMPTY := Meta(Field([], false), Field([], false), Field([], false))

  function Be32(p: Bytes): (v: nat)
    requires |p| >= 4
    ensures v < 0x1_0000_0000
  {
    var a: int, b: int, c: int, d: int := p[0], p[1], p[2], p[3];
    a * 0x100_0000 + b * 0x1_0000 + c * 0x100 + d
  }

  /** What fits the field's buffer. */
  function Cut(val: Bytes): Bytes {
    if |val| < STR_MAX - 1 then val else val[..STR_MAX - 1]
  }

  predicate IsText(code: Bytes) {
    code == MINM || code == ASAR || code == ASAL
  }

  function Store(m: Meta, code: Bytes, val: Bytes): Meta
    requires IsText(code)
  {
    if code == MINM then m.(title := Field(Cut(val), true))
    else if code == ASAR then m.(artist := Field(Cut(val), true))
    else m.(album := Field(Cut(val), true))
  }

  /** Whether a whole tag is at the front of buf, and its value. */
  predicate TagComplete(buf: Bytes) {
    |buf| >= 8 && Be32(buf[4..8]) <= |buf| - 8
  }

  function Value(buf: Bytes): Bytes
    requires TagComplete(buf)
  {
    buf[8..8 + Be32(buf[4..8])]
  }

  /** What the walk makes of a byte string, any byte string. */
  function Walk(buf: Bytes, m: Meta, depth: nat): (Meta, nat)
    decreases |buf|
  {
    if !TagComplete(buf) then (m, 0)
    else
      var code, val := buf[..4], Value(buf);
      var (m1, n1) :=
        if code == MLIT then (if depth < MAX_DEPTH then Walk(val, m, depth + 1) else (m, 0))
        else if IsText(code) then (Store(m, code, val), 1)
        else (m, 0);
      var (m2, n2) := Walk(buf[8 + |val|..], m1, depth);
      (m2, n1 + n2)
  }

  /** What the walk does with one tag's code and value. */
  function WalkOne(code: Bytes, val: Bytes, m: Meta, depth: nat): (Meta, nat) {
    if code == MLIT then (if depth < MAX_DEPTH then Walk(val, m, depth + 1) else (m, 0))
    else if IsText(code) then (Store(m, code, val), 1)
    else (m, 0)
  }

  /** One turn of the walk. */
  lemma WalkStep(buf: Bytes, m: Meta, depth: nat)
    ensures !TagComplete(buf) ==> Walk(buf, m, depth) == (m, 0)
    ensures TagComplete(buf) ==> (
      var (m1, n1) := WalkOne(buf[..4], Value(buf), m, depth);
      var (m2, n2) := Walk(buf[8 + |Value(buf)|..], m1, depth);
      Walk(buf, m, depth) == (m2, n1 + n2))
  {
    hide Be32, Store;
  }

  // ----- trees of tags -----

  datatype Tag =
    | Text(code: Bytes, val: Bytes)
    | Container(tags: seq<Tag>)
    | Unknown(code: Bytes, val: Bytes)

  function Put32(v: nat): (p: Bytes)
    ensures |p| == 4
  {
    [v / 0x100_0000 % 0x100, v / 0x1_0000 % 0x100, v / 0x100 % 0x100, v % 0x100]
  }

  function EncodeTag(t: Tag): Bytes
    decreases t
  {
    match t
    case Text(code, val) => code + Put32(|val|) + val
    case Container(tags) => MLIT + Put32(|EncodeAll(tags)|) + EncodeAll(tags)
    case Unknown(code, val) => code + Put32(|val|) + val
  }

  function EncodeAll(ts: seq<Tag>): Bytes
    decreases ts
  {
    if ts == [] then [] else EncodeTag(ts[0]) + EncodeAll(ts[1..])
  }

  /** Codes are what their kind says, and every value's length fits its field. */
  predicate GoodTag(t: Tag)
    decreases t
  {
    match t
    case Text(code, val) => IsText(code) && |val| < 0x1_0000_0000
    case Container(tags) => GoodTags(tags) && |EncodeAll(tags)| < 0x1_0000_0000
    case Unknown(code, val) => |code| == 4 && !IsText(code) && code != MLIT && |val| < 0x1_0000_0000
  }

  predicate GoodTags(ts: seq<Tag>)
    decreases ts
  {
    ts == [] || (GoodTag(ts[0]) && GoodTags(ts[1..]))
  }

  /** The text tags a walk from `depth` reaches, in order: those inside at most four containers. */
  function TextsOf(t: Tag, depth: nat): seq<(Bytes, Bytes)>
    decreases t
  {
    match t
    case Text(code, val) => [(code, val)]
    case Container(tags) => if depth < MAX_DEPTH then Texts(tags, depth + 1) else []
    case Unknown(_, _) => []
  }

  function Texts(ts: seq<Tag>, depth: nat): seq<(Bytes, Bytes)>
    decreases ts
  {
    if ts == [] then [] else TextsOf(ts[0], depth) + Texts(ts[1..], depth)
  }

  predicate AllText(texts: seq<(Bytes, Bytes)>) {
    forall i :: 0 <= i < |texts| ==> IsText(texts[i].0)
  }

  function StoreAll(m: Meta, texts: seq<(Bytes, Bytes)>): Meta
    requires AllText(texts)
    decreases |texts|
  {
    if texts == [] then m else StoreAll(Store(m, texts[0].0, texts[0].1), texts[1..])
  }

  lemma {:induction false} StoreAllAppend(m: Meta, a: seq<(Bytes, Bytes)>, b: seq<(Bytes, Bytes)>)
    requires AllText(a) && AllText(b)
    ensures AllText(a + b) && StoreAll(m, a + b) == StoreAll(StoreAll(m, a), b)
    decreases |a|
  {
    if a == [] {
      assert a + b == b;
    } else {
      assert (a + b)[1..] == a[1..] + b;
      StoreAllAppend(Store(m, a[0].0, a[0].1), a[1..], b);
    }
  }

  lemma {:induction false} TextsAreText(ts: seq<Tag>, depth: nat)
    requires GoodTags(ts)
    ensures AllText(Texts(ts, depth))
    decreases ts
  {
    if ts == [] {
    } else {
      TextsAreText(ts[1..], depth);
      TextsOfAreText(ts[0], depth);
    }
  }

  lemma {:induction false} TextsOfAreText(t: Tag, depth: nat)
    requires GoodTag(t)
    ensures AllText(TextsOf(t, depth))
    decreases t
  {
    if t.Container? && depth < MAX_DEPTH {
      TextsAreText(t.tags, depth + 1);
    }
  }

  lemma Get32(v: nat)
    requires v < 0x1_0000_0000
    ensures Be32(Put32(v)) == v
  {
    var a, b, c := v / 0x100_0000, v / 0x1_0000, v / 0x100;
    assert v == c * 0x100 + v % 0x100;
    assert c == (c / 0x100) * 0x100 + c % 0x100;
    assert b == (b / 0x100) * 0x100 + b % 0x100;
    assert c / 0x100 == b && b / 0x100 == a && a < 0x100;
  }

  function CodeOf(t: Tag): Bytes {
    if t.Container? then MLIT else t.code
  }

  function PayloadOf(t: Tag): Bytes {
    match t
    case Text(_, val) => val
    case Container(tags) => EncodeAll(tags)
    case Unknown(_, val) => val
  }

  /** An encoded tag is read back whole, and cut anywhere it is not complete. */
  lemma TagFraming(t: Tag, rest: Bytes)
    requires GoodTag(t)
    ensures |EncodeTag(t)| == 8 + |PayloadOf(t)|
    ensures var buf := EncodeTag(t) + rest;
      && TagComplete(buf) && buf[..4] == CodeOf(t) && Value(buf) == PayloadOf(t) && buf[8 + |PayloadOf(t)|..] == rest
    ensures forall n :: 0 <= n < |EncodeTag(t)| ==> !TagComplete(EncodeTag(t)[..n])
  {
    hide GoodTags, EncodeAll, Be32, Put32;
    var payload := PayloadOf(t);
    var e, code, len := EncodeTag(t), CodeOf(t), Put32(|payload|);
    assert e == code + len + payload;
    Get32(|payload|);
    FieldsOf(code, len, payload, rest);
    forall n | 0 <= n < |e|
      ensures !TagComplete(e[..n])
    {
      CutFields(code, len, payload, n);
    }
  }

  lemma FieldsOf(code: Bytes, len: Bytes, payload: Bytes, rest: Bytes)
    requires |code| == |len| == 4
    ensures var buf := code + len + payload + rest;
      && buf[..4] == code && buf[4..8] == len && buf[8..8 + |payload|] == payload && buf[8 + |payload|..] == rest
  {
  }

  lemma CutFields(code: Bytes, len: Bytes, payload: Bytes, n: nat)
    requires |code| == |len| == 4 && n <= 8 + |payload|
    ensures n >= 8 ==> (code + len + payload)[..n][4..8] == len
  {
  }

  /** How many tags are whole in the first n bytes of the encoding. */
  function WholeTags(ts: seq<Tag>, n: nat): (k: nat)
    ensures k <= |ts|
  {
    if ts == [] || n < |EncodeTag(ts[0])| then 0 else 1 + WholeTags(ts[1..], n - |EncodeTag(ts[0])|)
  }

  /** Walking the first n bytes of an encoding gives exactly what the tags whole at that level
      store: the last title, artist and album, and the number of texts, in containers nested at most
      four deep. What is nested deeper is skipped without disturbing what follows. */
  lemma {:induction false} WalkPrefix(ts: seq<Tag>, n: nat, m: Meta, depth: nat)
    requires GoodTags(ts) && n <= |EncodeAll(ts)|
    ensures var texts := Texts(ts[..WholeTags(ts, n)], depth);
            AllText(texts) && Walk(EncodeAll(ts)[..n], m, depth) == (StoreAll(m, texts), |texts|)
    decreases ts, 1
  {
    if ts == [] {
      WalkNothing(ts, n, m, depth);
    } else if n < |EncodeTag(ts[0])| {
      WalkCut(ts, n, m, depth);
    } else {
      hide *;
      var n' := n - |EncodeTag(ts[0])|;
      TagBehindTag(ts, n);
      var first := TextsOf(ts[0], depth);
      WalkTag(ts[0], m, depth);
      WalkPrefix(ts[1..], n', StoreAll(m, first), depth);
      var later := Texts(ts[1..][..WholeTags(ts[1..], n')], depth);
      WalkCons(ts[0], EncodeAll(ts[1..])[..n'], m, depth, first, later);
      TextsSplit(ts[..WholeTags(ts, n)], depth);
    }
  }

  lemma WalkNothing(ts: seq<Tag>, n: nat, m: Meta, depth: nat)
    requires ts == [] && n <= |EncodeAll(ts)|
    ensures var texts := Texts(ts[..WholeTags(ts, n)], depth);
            AllText(texts) && Walk(EncodeAll(ts)[..n], m, depth) == (StoreAll(m, texts), |texts|)
  {
  }

  /** The first tag is cut. */
  lemma WalkCut(ts: seq<Tag>, n: nat, m: Meta, depth: nat)
    requires ts != [] && GoodTag(ts[0]) && n < |EncodeTag(ts[0])| && n <= |EncodeAll(ts)|
    ensures var texts := Texts(ts[..WholeTags(ts, n)], depth);
            AllText(texts) && Walk(EncodeAll(ts)[..n], m, depth) == (StoreAll(m, texts), |texts|)
  {
    assert EncodeAll(ts)[..n] == EncodeTag(ts[0])[..n] && ts[..0] == [];
    hide Walk, EncodeTag, EncodeAll, TagComplete, Value, GoodTag;
    WalkStep(EncodeTag(ts[0])[..n], m, depth);
    TagFraming(ts[0], []);
  }

  /** The first tag is whole. */
  lemma TagBehindTag(ts: seq<Tag>, n: nat)
    requires ts != [] && GoodTags(ts) && |EncodeTag(ts[0])| <= n <= |EncodeAll(ts)|
    ensures var n' := n - |EncodeTag(ts[0])|;
      && GoodTag(ts[0]) && GoodTags(ts[1..]) && n' <= |EncodeAll(ts[1..])|
      && EncodeAll(ts)[..n] == EncodeTag(ts[0]) + EncodeAll(ts[1..])[..n']
      && WholeTags(ts, n) == 1 + WholeTags(ts[1..], n') && ts[..WholeTags(ts, n)] != []
      && ts[..WholeTags(ts, n)][0] == ts[0]
      && ts[..WholeTags(ts, n)][1..] == ts[1..][..WholeTags(ts[1..], n')]
  {
    hide EncodeTag, GoodTag;
  }

  /** Walking a tag and what follows it. */
  lemma WalkCons(t: Tag, rest: Bytes, m: Meta, depth: nat, first: seq<(Bytes, Bytes)>, later: seq<(Bytes, Bytes)>)
    requires GoodTag(t) && AllText(first) && AllText(later)
    requires WalkOne(CodeOf(t), PayloadOf(t), m, depth) == (StoreAll(m, first), |first|)
    requires Walk(rest, StoreAll(m, first), depth) == (StoreAll(StoreAll(m, first), later), |later|)
    ensures AllText(first + later)
    ensures Walk(EncodeTag(t) + rest, m, depth) == (StoreAll(m, first + later), |first + later|)
  {
    hide Walk, WalkOne, StoreAll, EncodeTag, EncodeAll, TagComplete, Value, GoodTag, PayloadOf, CodeOf;
    TagFraming(t, rest);
    WalkStep(EncodeTag(t) + rest, m, depth);
    StoreAllAppend(m, first, later);
  }

  lemma TextsSplit(ts: seq<Tag>, depth: nat)
    requires ts != []
    ensures Texts(ts, depth) == TextsOf(ts[0], depth) + Texts(ts[1..], depth)
  {
  }

  lemma {:induction false} WalkTag(t: Tag, m: Meta, depth: nat)
    requires GoodTag(t)
    ensures var texts := TextsOf(t, depth);
            AllText(texts) && WalkOne(CodeOf(t), PayloadOf(t), m, depth) == (StoreAll(m, texts), |texts|)
    decreases t, 0
  {
    hide *;
    if t.Container? && depth < MAX_DEPTH {
      var all := |EncodeAll(t.tags)|;
      ContainerOf(t, m, depth);
      WholeAll(t.tags);
      WalkPrefix(t.tags, all, m, depth + 1);
      assert EncodeAll(t.tags)[..all] == EncodeAll(t.tags) && t.tags[..|t.tags|] == t.tags;
    } else {
      Leaf(t, m, depth);
    }
  }

  lemma ContainerOf(t: Tag, m: Meta, depth: nat)
    requires t.Container? && GoodTag(t) && depth < MAX_DEPTH
    ensures GoodTags(t.tags) && TextsOf(t, depth) == Texts(t.tags, depth + 1)
    ensures WalkOne(CodeOf(t), PayloadOf(t), m, depth) == Walk(EncodeAll(t.tags), m, depth + 1)
  {
    hide Walk, EncodeAll, Texts, GoodTags;
  }

  lemma Leaf(t: Tag, m: Meta, depth: nat)
    requires GoodTag(t) && (t.Container? ==> depth >= MAX_DEPTH)
    ensures var texts := TextsOf(t, depth);
            AllText(texts) && WalkOne(CodeOf(t), PayloadOf(t), m, depth) == (StoreAll(m, texts), |texts|)
  {
    hide Walk, EncodeAll, Texts, GoodTags;
  }

  lemma {:induction false} WholeAll(ts: seq<Tag>)
    ensures WholeTags(ts, |EncodeAll(ts)|) == |ts|
  {
    if ts == [] {
    } else {
      WholeAll(ts[1..]);
    }
  }

  /** Parsing inverts printing: a whole encoding yields the stored texts of the tree. */
  lemma ParseInvertsPrinting(ts: seq<Tag>)
    requires GoodTags(ts)
    ensures AllText(Texts(ts, 0))
    ensures Walk(EncodeAll(ts), EMPTY, 0) == (StoreAll(EMPTY, Texts(ts, 0)), |Texts(ts, 0)|)
  {
    WholeAll(ts);
    WalkPrefix(ts, |EncodeAll(ts)|, EMPTY, 0);
    assert EncodeAll(ts)[..|EncodeAll(ts)|] == EncodeAll(ts);
    assert ts[..|ts|] == ts;
  }

  /** The last of several texts with one code is the one that stays, cut to 127 bytes: "minm" is the title,
      "asar" the artist, "asal" the album. */
  lemma {:induction false} LastStays(m: Meta, texts: seq<(Bytes, Bytes)>, k: nat)
    requires AllText(texts) && k < |texts|
    requires forall i :: k < i < |texts| ==> texts[i].0 != texts[k].0
    ensures var r := StoreAll(m, texts);
      var kept := if |texts[k].1| < 127 then texts[k].1 else texts[k].1[..127];
      && (texts[k].0 == [109, 105, 110, 109] ==> r.title == Field(kept, true))
      && (texts[k].0 == [97, 115, 97, 114] ==> r.artist == Field(kept, true))
      && (texts[k].0 == [97, 115, 97, 108] ==> r.album == Field(kept, true))
  {
    var last := |texts| - 1;
    assert texts == texts[..last] + [texts[last]];
    StoreAllAppend(m, texts[..last], [texts[last]]);
    if k == last {
    } else {
      LastStays(m, texts[..last], k);
    }
  }

  /** A code without a text leaves its field alone. */
  lemma {:induction false} OthersStay(m: Meta, texts: seq<(Bytes, Bytes)>)
    requires AllText(texts)
    ensures var r := StoreAll(m, texts);
      && ((forall t <- texts :: t.0 != [109, 105, 110, 109]) ==> r.title == m.title)
      && ((forall t <- texts :: t.0 != [97, 115, 97, 114]) ==> r.artist == m.artist)
      && ((forall t <- texts :: t.0 != [97, 115, 97, 108]) ==> r.album == m.album)
    decreases |texts|
  {
    if texts == [] {
    } else {
      assert texts[0] in texts && forall t <- texts[1..] :: t in texts;
      OthersStay(Store(m, texts[0].0, texts[0].1), texts[1..]);
    }
  }

  /** A tag on the wire: its code, the length of its value in four bytes, most significant first, and the
      value; a container's code is "mlit". */
  lemma TagExactly(t: Tag)
    requires GoodTag(t)
    ensures var e, n := EncodeTag(t), |PayloadOf(t)|;
      && |e| == 8 + n && e[..4] == (if t.Container? then [109, 108, 105, 116] else t.code) && e[8..] == PayloadOf(t)
      && e[4] as int * 0x100_0000 + e[5] as int * 0x1_0000 + e[6] as int * 0x100 + e[7] as int == n
  {
    Get32(|PayloadOf(t)|);
    TagFraming(t, []);
    var e := EncodeTag(t);
    assert e + [] == e && e[4..8] == Put32(|PayloadOf(t)|);
    assert [e[4], e[5], e[6], e[7]] == e[4..8];
    hide GoodTag, EncodeAll, EncodeTag, Put32;
  }

  /** A text inside d containers. */
  function Nested(t: Tag, d: nat): Tag {
    if d == 0 then t else Container([Nested(t, d - 1)])
  }

  lemma NestedTexts(t: Tag, d: nat, depth: nat)
    requires t.Text?
    ensures TextsOf(Nested(t, d), depth) == if d == 0 || depth + d <= 4 then [(t.code, t.val)] else []
  {
    if d > 0 && depth < 4 {
      NestedTexts(t, d - 1, depth + 1);
      var inner := [Nested(t, d - 1)];
      assert inner[1..] == [];
      assert Texts(inner, depth + 1) == TextsOf(inner[0], depth + 1) + Texts(inner[1..], depth + 1);
    }
  }

  /** A text is found inside four containers, and not inside five. */
  lemma FourDeep(t: Tag, d: nat)
    requires t.Text? && GoodTag(Nested(t, d))
    ensures Walk(EncodeAll([Nested(t, d)]), EMPTY, 0).1 == if d <= 4 then 1 else 0
  {
    var ts := [Nested(t, d)];
    assert ts[1..] == [];
    NestedTexts(t, d, 0);
    assert Texts(ts, 0) == TextsOf(ts[0], 0) + Texts(ts[1..], 0);
    assert GoodTags(ts);
    hide Walk, EncodeAll, TextsOf, GoodTag, StoreAll;
    ParseInvertsPrinting(ts);
  }

  // ----- the walk as it runs -----

  lemma SliceHead(buf: Bytes, off: nat)
    requires off + 8 <= |buf|
    ensures buf[off..][..4] == buf[off..off + 4] && buf[off..][4..8] == buf[off + 4..off + 8]
  {
  }

  lemma SliceValue(buf: Bytes, off: nat, len: nat)
    requires off + 8 + len <= |buf|
    ensures buf[off..][8..8 + len] == buf[off + 8..off + 8 + len]
    ensures buf[off..][8 + len..] == buf[off + 8 + len..]
  {
  }

  class DmapMeta {
    var meta: Meta

    constructor ()
      ensures meta == EMPTY
    {
      meta := EMPTY;
    }

    method WalkBytes(buf: Bytes, depth: nat) returns (count: nat)
      modifies this
      ensures (meta, count) == Walk(buf, old(meta), depth)
      decreases |buf|, 0
    {
      hide Be32, Walk, WalkOne;
      count := 0;
      var off := 0;
      assert buf[0..] == buf;
      while off + 8 <= |buf|
        invariant 0 <= off <= |buf|
        invariant Walk(buf, old(meta), depth) ==
                  (Walk(buf[off..], meta, depth).0, count + Walk(buf[off..], meta, depth).1)
        decreases |buf| - off
      {
        ghost var here := buf[off..];
        WalkStep(here, meta, depth);
        SliceHead(buf, off);
        var code := buf[off..off + 4];
        var vlen := Be32(buf[off + 4..off + 8]);
        off := off + 8;
        if vlen > |buf| - off {
          return;
        }
        SliceValue(buf, off - 8, vlen);
        var val := buf[off..off + vlen];
        var n := Tagged(code, val, depth);
        count := count + n;
        off := off + vlen;
      }
      WalkStep(buf[off..], meta, depth);
    }

    /** One whole tag: containers are entered down to the depth cap, known texts stored. */
    method Tagged(code: Bytes, val: Bytes, depth: nat) returns (n: nat)
      modifies this
      ensures (meta, n) == WalkOne(code, val, old(meta), depth)
      decreases |val|, 1
    {
      n := 0;
      if code == MLIT {
        if depth < MAX_DEPTH {
          n := WalkBytes(val, depth + 1);
        }
      } else if code == MINM || code == ASAR || code == ASAL {
        meta := Store(meta, code, val);
        n := 1;
      }
    }

    method DmapParse(buf: Bytes) returns (count: nat)
      modifies this
      ensures (meta, count) == Walk(buf, EMPTY, 0)
    {
      meta := EMPTY;
      count := WalkBytes(buf, 0);
    }
  }
}
