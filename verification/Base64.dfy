/** Base64 (section 4 of RFC 4648) as the receiver encodes and decodes it. */
module Base64 {
  import opened Wrappers
  import opened Arith
  import opened BitStream

  type Bytes = seq<byte>

  const PAD: byte := 61

  function EncVal(v: nat): byte
    requires v < 64
  {
    if v < 26 then 65 + v else if v < 52 then 97 + (v - 26) else if v < 62 then 48 + (v - 52)
    else if v == 62 then 43 else 47
  }

  function DecVal(c: byte): (v: int)
    ensures v < 64
  {
    if 65 <= c <= 90 then c - 65 else if 97 <= c <= 122 then c - 97 + 26 else if 48 <= c <= 57 then c - 48 + 52
    else if c == 43 then 62 else if c == 47 then 63 else -1
  }

  lemma DecEnc(v: nat)
    requires v < 64
    ensures DecVal(EncVal(v)) == v && EncVal(v) != PAD && !IsBlank(EncVal(v))
  {
  }

  /** The alphabet of RFC 4648, table 1: every value has its character, and no other character has a value. */
  lemma AlphabetExactly(v: nat, c: byte)
    requires v < 64
    ensures EncVal(v) as int ==
      if v < 26 then 'A' as int + v else if v < 52 then 'a' as int + (v - 26) else if v < 62 then '0' as int + (v - 52)
      else if v == 62 then '+' as int else '/' as int
    ensures DecVal(c) >= 0 ==> c == EncVal(DecVal(c))
    ensures DecVal(EncVal(v)) == v
  {
  }

  predicate IsBlank(c: byte) {
    c == 13 || c == 10 || c == 32 || c == 9
  }

  // ----- encoding -----

  function Word(in_: Bytes): (n: nat)
    requires |in_| == 3
    ensures n < 0x100_0000
  {
    var a: int, b: int, c: int := in_[0], in_[1], in_[2];
    a * 0x1_0000 + b * 0x100 + c
  }

  /** The four characters of a full group. */
  function Group(n: nat): (g: Bytes)
    ensures |g| == 4
  {
    [EncVal(n / 0x4_0000 % 64), EncVal(n / 0x1000 % 64), EncVal(n / 64 % 64), EncVal(n % 64)]
  }

  function Encode(in_: Bytes): Bytes {
    if |in_| >= 3 then Group(Word(in_[..3])) + Encode(in_[3..])
    else if |in_| == 2 then
      Group(Word(in_ + [0]))[..3] + [PAD]
    else if |in_| == 1 then
      Group(Word(in_ + [0, 0]))[..2] + [PAD, PAD]
    else []
  }

  /** Space the encoding takes, with its terminator. */
  function EncodedSize(n: nat): nat {
    (n + 2) / 3 * 4 + 1
  }

  lemma {:induction false} EncodeLength(in_: Bytes)
    ensures |Encode(in_)| + 1 == EncodedSize(|in_|)
  {
    if |in_| < 3 {
    } else {
      EncodeLength(in_[3..]);
      assert (|in_| - 3 + 2) / 3 == (|in_| + 2) / 3 - 1;
    }
  }

  // ----- decoding -----

  /** Decoding continued with `low` the last nbits bits not yet given out and room for that many
      bytes. Blanks are skipped, padding ends the text, anything else unknown is an error. */
  function DecodeFrom(s: Bytes, low: nat, nbits: nat, room: nat): Option<Bytes>
    requires nbits < 8 && low < Pow2(nbits)
  {
    if s == [] || s[0] == PAD then Some([])
    else if IsBlank(s[0]) then DecodeFrom(s[1..], low, nbits, room)
    else
      var v := DecVal(s[0]);
      if v < 0 then None
      else
        var low' := low * 64 + v;
        ShiftedIn(low, nbits, v);
        if nbits + 6 >= 8 then
          if room == 0 then None
          else
            var rest :- DecodeFrom(s[1..], low' % Pow2(nbits - 2), nbits - 2, room - 1);
            Some([TopByte(low', nbits)] + rest)
        else DecodeFrom(s[1..], low', nbits + 6, room)
  }

  /** With six more bits at hand, and with all but the eight above them given out. */
  lemma ShiftedIn(low: nat, nbits: nat, v: nat)
    requires nbits < 8 && low < Pow2(nbits) && v < 64
    ensures low * 64 + v < Pow2(nbits + 6)
    ensures nbits >= 2 ==> (low * 64 + v) % Pow2(nbits - 2) < Pow2(nbits - 2)
  {
    hide *;
    Pow2Add(nbits, 6);
    Pow2Six();
    LowBound(low, Pow2(nbits), v);
    if nbits >= 2 {
      DivMod(low * 64 + v, Pow2(nbits - 2));
    }
  }

  lemma Pow2Six()
    ensures Pow2(6) == 64
  {
  }

  lemma LowBound(low: nat, p: nat, v: nat)
    requires low < p && v < 64
    ensures low * 64 + v < p * 64
  {
  }

  /** The eight bits given out when nbits + 6 are at hand. */
  function TopByte(low: nat, nbits: nat): byte
    requires 2 <= nbits < 8 && low < Pow2(nbits + 6)
  {
    Pow2Add(8, nbits - 2);
    Pow2Constants();
    DivMod(low, Pow2(nbits - 2));
    QuotientBound(low, 256, Pow2(nbits - 2));
    low / Pow2(nbits - 2)
  }

  lemma QuotientBound(x: nat, a: nat, p: nat)
    requires p > 0 && x < a * p
    ensures x / p < a
  {
    DivMod(x, p);
    if x / p >= a {
      MulMonotone(a, x / p, p);
    }
  }

  function Decode(s: Bytes, room: nat): Option<Bytes> {
    DecodeFrom(s, 0, 0, room)
  }

  /** The text without its blanks. */
  function Strip(s: Bytes): Bytes {
    if s == [] then [] else if IsBlank(s[0]) then Strip(s[1..]) else [s[0]] + Strip(s[1..])
  }

  /** Blanks are tabs, line feeds, carriage returns and spaces; the padding is '='. */
  lemma BlanksExactly(c: byte, s: Bytes)
    ensures Strip([]) == [] == Unpadded([])
    ensures Strip([c] + s) == if c == 9 || c == 10 || c == 13 || c == 32 then Strip(s) else [c] + Strip(s)
    ensures Unpadded([c] + s) == if c as int == '=' as int then [] else [c] + Unpadded(s)
  {
    assert ([c] + s)[1..] == s;
  }

  /** The text up to its padding. */
  function Unpadded(s: Bytes): Bytes {
    if s == [] || s[0] == PAD then [] else [s[0]] + Unpadded(s[1..])
  }

  /** A decoding that starts with `done`. */
  function After(done: Bytes, r: Option<Bytes>): Option<Bytes> {
    match r
    case None => None
    case Some(rest) => Some(done + rest)
  }

  lemma AfterNil(r: Option<Bytes>)
    ensures After([], r) == r
  {
    assert r.Some? ==> [] + r.value == r.value;
  }

  lemma AfterAppend(a: Bytes, b: Bytes, r: Option<Bytes>)
    ensures After(a, After(b, r)) == After(a + b, r)
  {
    assert r.Some? ==> a + (b + r.value) == a + b + r.value;
  }

  lemma AfterSnoc(done: Bytes, b: byte, r: Option<Bytes>)
    ensures After(done, After([b], r)) == After(done + [b], r)
  {
    assert r.Some? ==> done + ([b] + r.value) == done + [b] + r.value;
  }

  /** One turn of decoding at padding, a blank or an unknown character. */
  lemma SkipStep(s: Bytes, low: nat, nbits: nat, room: nat)
    requires nbits < 8 && low < Pow2(nbits) && s != []
    requires s[0] == PAD || IsBlank(s[0]) || DecVal(s[0]) < 0
    ensures DecodeFrom(s, low, nbits, room) ==
            if s[0] == PAD then Some([]) else if IsBlank(s[0]) then DecodeFrom(s[1..], low, nbits, room) else None
  {
    hide Pow2, DecVal, TopByte;
  }

  /** One turn of decoding that gives out no byte yet. */
  lemma CarryStep(s: Bytes, low: nat, nbits: nat, room: nat)
    requires nbits < 2 && low < Pow2(nbits) && s != []
    requires s[0] != PAD && !IsBlank(s[0]) && DecVal(s[0]) >= 0
    ensures var low' := low * 64 + DecVal(s[0]);
      low' < Pow2(nbits + 6) && DecodeFrom(s, low, nbits, room) == DecodeFrom(s[1..], low', nbits + 6, room)
  {
    ShiftedIn(low, nbits, DecVal(s[0]));
    hide Pow2, DecVal, TopByte, IsBlank;
  }

  /** One turn of decoding that gives out a byte, if there is room. */
  lemma EmitStep(s: Bytes, low: nat, nbits: nat, room: nat)
    requires 2 <= nbits < 8 && low < Pow2(nbits) && s != []
    requires s[0] != PAD && !IsBlank(s[0]) && DecVal(s[0]) >= 0
    ensures room == 0 ==> DecodeFrom(s, low, nbits, room) == None
    ensures var low' := low * 64 + DecVal(s[0]);
      && low' % Pow2(nbits - 2) < Pow2(nbits - 2) && 0 <= low' / Pow2(nbits - 2) < 256
      && (room > 0 ==> (
            DecodeFrom(s, low, nbits, room)
            == After([low' / Pow2(nbits - 2)], DecodeFrom(s[1..], low' % Pow2(nbits - 2), nbits - 2, room - 1))))
  {
    ShiftedIn(low, nbits, DecVal(s[0]));
    TopByteIs(low * 64 + DecVal(s[0]), nbits);
    hide Pow2, DecVal, TopByte, IsBlank;
  }

  lemma TopByteIs(low: nat, nbits: nat)
    requires 2 <= nbits < 8 && low < Pow2(nbits + 6)
    ensures 0 <= low / Pow2(nbits - 2) < 256 && TopByte(low, nbits) == low / Pow2(nbits - 2)
  {
    var b := TopByte(low, nbits);
    hide Pow2;
  }

  /** Whatever bits are pending and however much room there is, the two texts decode alike. */
  ghost predicate DecodeAlike(s: Bytes, t: Bytes) {
    forall low: nat, nbits: nat, room: nat :: nbits < 8 && low < Pow2(nbits)
      ==> DecodeFrom(s, low, nbits, room) == DecodeFrom(t, low, nbits, room)
  }

  /** The same character in front of texts that decode alike. */
  lemma AlikeBehind(s: Bytes, t: Bytes)
    requires s != [] && t != [] && s[0] == t[0] && DecodeAlike(s[1..], t[1..])
    ensures DecodeAlike(s, t)
  {
    hide Pow2, DecodeFrom, DecVal, IsBlank;
    forall low: nat, nbits: nat, room: nat | nbits < 8 && low < Pow2(nbits)
      ensures DecodeFrom(s, low, nbits, room) == DecodeFrom(t, low, nbits, room)
    {
      if s[0] == PAD || IsBlank(s[0]) || DecVal(s[0]) < 0 {
        SkipStep(s, low, nbits, room);
        SkipStep(t, low, nbits, room);
      } else if nbits < 2 {
        CarryStep(s, low, nbits, room);
        CarryStep(t, low, nbits, room);
      } else {
        EmitStep(s, low, nbits, room);
        EmitStep(t, low, nbits, room);
      }
    }
  }

  lemma AlikeBlank(s: Bytes, t: Bytes)
    requires s != [] && IsBlank(s[0]) && s[0] != PAD && DecodeAlike(s[1..], t)
    ensures DecodeAlike(s, t)
  {
    hide Pow2, DecodeFrom, DecVal, IsBlank;
    forall low: nat, nbits: nat, room: nat | nbits < 8 && low < Pow2(nbits)
      ensures DecodeFrom(s, low, nbits, room) == DecodeFrom(t, low, nbits, room)
    {
      SkipStep(s, low, nbits, room);
    }
  }

  lemma {:induction false} BlanksIgnored(s: Bytes)
    ensures DecodeAlike(s, Strip(s))
  {
    if s == [] {
    } else {
      hide DecodeFrom, Pow2, DecodeAlike;
      BlanksIgnored(s[1..]);
      if IsBlank(s[0]) {
        AlikeBlank(s, Strip(s));
      } else {
        assert Strip(s)[1..] == Strip(s[1..]);
        AlikeBehind(s, Strip(s));
      }
    }
  }

  lemma {:induction false} PaddingIgnored(s: Bytes)
    ensures DecodeAlike(s, Unpadded(s))
  {
    if s == [] || s[0] == PAD {
      hide Pow2;
    } else {
      hide DecodeFrom, Pow2, DecodeAlike;
      var t := Unpadded(s);
      assert t[1..] == Unpadded(s[1..]);
      PaddingIgnored(s[1..]);
      AlikeBehind(s, t);
    }
  }

  /** One character of the alphabet at each of the four places in a group. */
  lemma Char0(v: nat, rest: Bytes, room: nat)
    requires v < 64
    ensures Pow2(6) == 64 && DecodeFrom([EncVal(v)] + rest, 0, 0, room) == DecodeFrom(rest, v, 6, room)
  {
    DecEnc(v);
    assert ([EncVal(v)] + rest)[1..] == rest;
  }

  lemma CharN(low: nat, nbits: nat, v: nat, b: byte, rest: Bytes, room: nat)
    requires v < 64 && 2 <= nbits < 8 && low < Pow2(nbits) && room > 0
    requires b == (low * 64 + v) / Pow2(nbits - 2)
    ensures (low * 64 + v) % Pow2(nbits - 2) < Pow2(nbits - 2)
    ensures DecodeFrom([EncVal(v)] + rest, low, nbits, room)
            == After([b], DecodeFrom(rest, (low * 64 + v) % Pow2(nbits - 2), nbits - 2, room - 1))
  {
    DecEnc(v);
    hide Pow2, DecodeFrom, EncVal, DecVal, IsBlank;
    assert ([EncVal(v)] + rest)[1..] == rest;
    EmitStep([EncVal(v)] + rest, low, nbits, room);
  }

  /** The three bytes of a group, recombined from its four 6-bit values. */
  lemma GroupArith(a: nat, b: nat, c: nat, n: nat)
    requires a < 256 && b < 256 && c < 256 && n == a * 0x1_0000 + b * 0x100 + c
    ensures n / 0x4_0000 % 64 == a / 4 && n / 0x1000 % 64 == a % 4 * 16 + b / 16
    ensures n / 64 % 64 == b % 16 * 4 + c / 64 && n % 64 == c % 64
    ensures var w1 := a / 4 * 64 + (a % 4 * 16 + b / 16); w1 / 16 == a && w1 % 16 == b / 16
    ensures var w2 := b / 16 * 64 + (b % 16 * 4 + c / 64); w2 / 4 == b && w2 % 4 == c / 64
    ensures c / 64 * 64 + c % 64 == c
  {
    var ah, al, bh, bl, ch, cl := a / 4, a % 4, b / 16, b % 16, c / 64, c % 64;
    assert a == 4 * ah + al && b == 16 * bh + bl && c == 64 * ch + cl;
    ModUnique(n, 0x4_0000, ah, al * 0x1_0000 + b * 0x100 + c);
    ModUnique(ah, 64, 0, ah);
    ModUnique(n, 0x1000, ah * 64 + al * 16 + bh, bl * 0x100 + c);
    ModUnique(ah * 64 + al * 16 + bh, 64, ah, al * 16 + bh);
    ModUnique(n, 64, ah * 0x1000 + al * 0x400 + bh * 64 + bl * 4 + ch, cl);
    ModUnique(ah * 0x1000 + al * 0x400 + bh * 64 + bl * 4 + ch, 64, ah * 64 + al * 16 + bh, bl * 4 + ch);
    ModUnique(ah * 64 + (al * 16 + bh), 16, a, bh);
    ModUnique(bh * 64 + (bl * 4 + ch), 4, b, ch);
  }

  // the four characters of a group, by the bytes they carry

  function Code1(x: byte): byte {
    EncVal(x / 4)
  }

  function Code2(x: byte, y: byte): byte {
    EncVal(x % 4 * 16 + y / 16)
  }

  function Code3(y: byte, z: byte): byte {
    EncVal(y % 16 * 4 + z / 64)
  }

  function Code4(z: byte): byte {
    EncVal(z % 64)
  }

  lemma FirstByte(x: byte, y: byte, after: Bytes, room: nat)
    requires room > 0
    ensures Pow2(4) == 16
    ensures DecodeFrom([Code1(x)] + ([Code2(x, y)] + after), 0, 0, room)
            == After([x], DecodeFrom(after, y / 16, 4, room - 1))
  {
    Nibbles();
    SixAndTwo(x, y);
    hide *;
    Char0(x / 4, [EncVal(x % 4 * 16 + y / 16)] + after, room);
    CharN(x / 4, 6, x % 4 * 16 + y / 16, x, after, room);
    CodesOf(x, y);
  }

  lemma Nibbles()
    ensures Pow2(6) == 64 && Pow2(4) == 16 && Pow2(2) == 4 && Pow2(0) == 1
  {
  }

  lemma CodesOf(x: byte, y: byte)
    ensures Code1(x) == EncVal(x / 4) && Code2(x, y) == EncVal(x % 4 * 16 + y / 16)
  {
    hide EncVal;
  }

  lemma SixAndTwo(a: nat, b: nat)
    requires a < 256 && b < 256
    ensures a / 4 < 64 && a % 4 * 16 + b / 16 < 64
    ensures (a / 4 * 64 + (a % 4 * 16 + b / 16)) / 16 == a && (a / 4 * 64 + (a % 4 * 16 + b / 16)) % 16 == b / 16
  {
    GroupArith(a, b, 0, a * 0x1_0000 + b * 0x100);
  }

  lemma SecondByte(y: byte, z: byte, after: Bytes, room: nat)
    requires room > 0
    ensures Pow2(4) == 16 && Pow2(2) == 4
    ensures DecodeFrom([Code3(y, z)] + after, y / 16, 4, room) == After([y], DecodeFrom(after, z / 64, 2, room - 1))
  {
    var b: nat, c: nat := y, z;
    GroupArith(0, b, c, b * 0x100 + c);
    assert Pow2(4) == 16 && Pow2(2) == 4;
    hide DecodeFrom, EncVal, Pow2;
    CharN(b / 16, 4, b % 16 * 4 + c / 64, y, after, room);
  }

  lemma ThirdByte(z: byte, after: Bytes, room: nat)
    requires room > 0
    ensures Pow2(2) == 4
    ensures DecodeFrom([Code4(z)] + after, z / 64, 2, room) == After([z], DecodeFrom(after, 0, 0, room - 1))
  {
    var c: nat := z;
    GroupArith(0, 0, c, c);
    One(c);
    assert Pow2(0) == 1 && Pow2(2) == 4;
    hide DecodeFrom, EncVal, Pow2;
    CharN(c / 64, 2, c % 64, z, after, room);
  }

  lemma Codes(x: byte, y: byte, z: byte)
    ensures Group(Word([x, y, z])) == [Code1(x), Code2(x, y), Code3(y, z), Code4(z)]
  {
    GroupArith(x, y, z, Word([x, y, z]));
    hide EncVal, Word;
  }

  // the encoding by the bytes it carries

  lemma EncodeOne(x: byte)
    ensures Encode([x]) == [Code1(x)] + ([Code2(x, 0)] + [PAD, PAD])
  {
    hide Group, Word, Code1, Code2, Code3, Code4;
    Codes(x, 0, 0);
    assert [x] + [0, 0] == [x, 0, 0];
  }

  lemma EncodeTwo(x: byte, y: byte)
    ensures Encode([x, y]) == [Code1(x)] + ([Code2(x, y)] + ([Code3(y, 0)] + [PAD]))
  {
    hide Group, Word, Code1, Code2, Code3, Code4;
    Codes(x, y, 0);
    assert [x, y] + [0] == [x, y, 0];
  }

  lemma EncodeThree(in_: Bytes, x: byte, y: byte, z: byte)
    requires |in_| >= 3 && in_[..3] == [x, y, z]
    ensures Encode(in_) == [Code1(x)] + ([Code2(x, y)] + ([Code3(y, z)] + ([Code4(z)] + Encode(in_[3..]))))
  {
    hide Encode, Group, Word, Code1, Code2, Code3, Code4;
    EncodeStep(in_);
    Codes(x, y, z);
    Flat4(Code1(x), Code2(x, y), Code3(y, z), Code4(z), Encode(in_[3..]));
  }

  lemma Flat4(a: byte, b: byte, c: byte, d: byte, tail: Bytes)
    ensures [a, b, c, d] + tail == [a] + ([b] + ([c] + ([d] + tail)))
  {
  }

  /** One turn of encoding. */
  lemma EncodeStep(in_: Bytes)
    ensures |in_| >= 3 ==> Encode(in_) == Group(Word(in_[..3])) + Encode(in_[3..])
    ensures |in_| < 3 ==> |Encode(in_)| == if in_ == [] then 0 else 4
  {
    hide Group, Word;
  }

  lemma EncodeDecodeOne(x: byte, room: nat)
    requires room >= 1
    ensures Decode([Code1(x)] + ([Code2(x, 0)] + [PAD, PAD]), room) == Some([x])
  {
    FirstByte(x, 0, [PAD, PAD], room);
    PadStops([PAD, PAD], 0, 4, room - 1);
    assert 0 / 16 == 0 && [x] + [] == [x];
    hide DecodeFrom, Code1, Code2;
  }

  lemma EncodeDecodeTwo(x: byte, y: byte, room: nat)
    requires room >= 2
    ensures Decode([Code1(x)] + ([Code2(x, y)] + ([Code3(y, 0)] + [PAD])), room) == Some([x, y])
  {
    FirstByte(x, y, [Code3(y, 0)] + [PAD], room);
    SecondByte(y, 0, [PAD], room - 1);
    PadStops([PAD], 0, 2, room - 2);
    assert 0 / 64 == 0 && [x] + ([y] + []) == [x, y];
    hide DecodeFrom, Code1, Code2, Code3;
  }

  lemma EncodeDecodeThree(x: byte, y: byte, z: byte, tail: Bytes, room: nat)
    requires room >= 3
    ensures Decode([Code1(x)] + ([Code2(x, y)] + ([Code3(y, z)] + ([Code4(z)] + tail))), room)
            == After([x, y, z], Decode(tail, room - 3))
  {
    FirstByte(x, y, [Code3(y, z)] + ([Code4(z)] + tail), room);
    SecondByte(y, z, [Code4(z)] + tail, room - 1);
    ThirdByte(z, tail, room - 2);
    hide DecodeFrom, Code1, Code2, Code3, Code4;
    var r := DecodeFrom(tail, 0, 0, room - 3);
    AfterSnoc([x], y, After([z], r));
    AfterSnoc([x] + [y], z, r);
    assert [x] + [y] + [z] == [x, y, z];
  }

  lemma SplitThree(s: Bytes)
    requires |s| >= 3
    ensures s[..3] == [s[0], s[1], s[2]] && [s[0], s[1], s[2]] + s[3..] == s
  {
  }

  lemma EncodeDecodeGroup(in_: Bytes, room: nat)
    requires 3 <= |in_| <= room && Decode(Encode(in_[3..]), room - 3) == Some(in_[3..])
    ensures Decode(Encode(in_), room) == Some(in_)
  {
    hide Decode, Encode, Code1, Code2, Code3, Code4;
    SplitThree(in_);
    EncodeThree(in_, in_[0], in_[1], in_[2]);
    EncodeDecodeThree(in_[0], in_[1], in_[2], Encode(in_[3..]), room);
  }

  lemma EncodeDecodeShort(in_: Bytes, room: nat)
    requires |in_| < 3 && |in_| <= room
    ensures Decode(Encode(in_), room) == Some(in_)
  {
    if |in_| == 1 {
      hide Decode, Encode, Code1, Code2;
      var x := in_[0];
      EncodeOne(x);
      EncodeDecodeOne(x, room);
      Singleton(in_, x);
    } else if |in_| == 2 {
      hide Decode, Encode, Code1, Code2, Code3;
      var x, y := in_[0], in_[1];
      EncodeTwo(x, y);
      EncodeDecodeTwo(x, y, room);
      Pair(in_, x, y);
    }
  }

  lemma Singleton(s: Bytes, x: byte)
    requires |s| == 1 && s[0] == x
    ensures s == [x]
  {
  }

  lemma Pair(s: Bytes, x: byte, y: byte)
    requires |s| == 2 && s[0] == x && s[1] == y
    ensures s == [x, y]
  {
  }

  /** A group of three bytes is four characters of six bits each; a rest of one byte or two is padded with '='. */
  lemma GroupExactly(x: byte, y: byte, z: byte, more: Bytes)
    ensures Encode([x, y, z] + more)
         == [EncVal(x / 4), EncVal(x % 4 * 16 + y / 16), EncVal(y % 16 * 4 + z / 64), EncVal(z % 64)] + Encode(more)
    ensures Encode([x, y]) == [EncVal(x / 4), EncVal(x % 4 * 16 + y / 16), EncVal(y % 16 * 4), 61]
    ensures Encode([x]) == [EncVal(x / 4), EncVal(x % 4 * 16), 61, 61]
    ensures Encode([]) == []
  {
    EncodeOne(x);
    EncodeTwo(x, y);
    var in_ := [x, y, z] + more;
    assert in_[..3] == [x, y, z] && in_[3..] == more;
    EncodeThree(in_, x, y, z);
    EncodeStep([]);
    hide Encode, EncVal;
  }

  /** Decoding inverts encoding, for any sufficient room. */
  lemma {:induction false} EncodeDecode(in_: Bytes, room: nat)
    requires room >= |in_|
    ensures Decode(Encode(in_), room) == Some(in_)
    decreases |in_|
  {
    hide Decode, Encode;
    if |in_| < 3 {
      EncodeDecodeShort(in_, room);
    } else {
      EncodeDecode(in_[3..], room - 3);
      EncodeDecodeGroup(in_, room);
    }
  }

  lemma One(c: nat)
    ensures c / 1 == c && c % 1 == 0
  {
  }

  lemma PadStops(s: Bytes, low: nat, nbits: nat, room: nat)
    requires nbits < 8 && low < Pow2(nbits) && s != [] && s[0] == PAD
    ensures DecodeFrom(s, low, nbits, room) == Some([])
  {
  }

  /** The same for any text that is the encoding once its blanks and its padding are gone: with blanks
      anywhere, with the padding stripped as the challenge reply does, or both. */
  lemma DecodeTolerates(in_: Bytes, wrapped: Bytes, room: nat)
    requires room >= |in_| && Unpadded(Strip(wrapped)) == Unpadded(Encode(in_))
    ensures Decode(wrapped, room) == Some(in_)
  {
    EncodeDecode(in_, room);
    BlanksIgnored(wrapped);
    PaddingIgnored(Strip(wrapped));
    PaddingIgnored(Encode(in_));
    hide DecodeFrom, Strip, Unpadded, Encode;
  }

  // ----- the loops -----

  /** The accumulator is a 32-bit word that keeps shifting old bits out at the top. */
  function ShiftIn(acc: nat, v: nat): nat {
    (acc * 64 + v) % 0x1_0000_0000
  }

  /** The byte above the last nbits bits. */
  function ByteAbove(acc: nat, nbits: nat): byte {
    acc / Pow2(nbits) % 256
  }

  /** Only the last nbits bits of the accumulator matter. */
  predicate Holds(acc: nat, nbits: nat, low: nat) {
    low < Pow2(nbits) && acc % Pow2(nbits) == low
  }

  /** Shifting a character in, and giving the top byte out when there are eight bits. */
  lemma AccumulatorStep(acc: nat, low: nat, nbits: nat, v: nat)
    requires nbits < 8 && v < 64 && Holds(acc, nbits, low)
    ensures var low' := low * 64 + v;
      && Holds(ShiftIn(acc, v), nbits + 6, low')
      && (nbits >= 2 ==>
            ByteAbove(ShiftIn(acc, v), nbits - 2) == low' / Pow2(nbits - 2)
            && Holds(ShiftIn(acc, v), nbits - 2, low' % Pow2(nbits - 2)))
  {
    ShiftHolds(acc, low, nbits, v);
    if nbits >= 2 {
      Pow2Add(8, nbits - 2);
      Pow2Constants();
      hide Pow2, ShiftIn;
      SplitByte(ShiftIn(acc, v), low * 64 + v, Pow2(nbits - 2));
    }
  }

  lemma ShiftHolds(acc: nat, low: nat, nbits: nat, v: nat)
    requires nbits < 8 && v < 64 && Holds(acc, nbits, low)
    ensures Holds(ShiftIn(acc, v), nbits + 6, low * 64 + v)
  {
    Pow2Add(nbits, 6);
    Pow2Six();
    Pow2Add(nbits + 6, 26 - nbits);
    Pow2Constants();
    hide Pow2;
    var p := Pow2(nbits);
    DivMod(acc, p);
    LowBound(low, p, v);
    SixMore(acc, acc / p, p, low, v);
    LowBits(acc * 64 + v, acc / p, p * 64, low * 64 + v, Pow2(26 - nbits));
  }

  lemma SixMore(acc: nat, q: nat, p: nat, low: nat, v: nat)
    requires acc == q * p + low
    ensures acc * 64 + v == q * (p * 64) + (low * 64 + v)
  {
  }

  /** Reducing modulo a multiple first does not change the low part. */
  lemma LowBits(x: nat, q: nat, m: nat, low: nat, f: nat)
    requires x == q * m + low && low < m && m * f == 0x1_0000_0000 && f > 0
    ensures x % 0x1_0000_0000 % m == low
  {
    ModOfMultiple(x, m, f);
    ModUnique(x, m, q, low);
  }

  lemma SplitByte(acc: nat, low: nat, p: nat)
    requires p > 0 && low < 256 * p && acc % (256 * p) == low
    ensures acc / p % 256 == low / p && acc % p == low % p
  {
    var k := acc / (256 * p);
    DivMod(acc, 256 * p);
    DivMod(low, p);
    QuotientBound(low, 256, p);
    assert acc == (k * 256 + low / p) * p + low % p;
    ModUnique(acc, p, k * 256 + low / p, low % p);
    ModUnique(k * 256 + low / p, 256, k, low / p);
  }

  lemma HoldsLow(acc: nat, nbits: nat, low: nat)
    requires Holds(acc, nbits, low)
    ensures low < Pow2(nbits)
  {
  }

  /** Takes one character of the alphabet: shifts its six bits in and writes a byte when eight are
      at hand. `full` reports that there was no room for it. */
  method Accept(s: Bytes, acc: nat, nbits: nat, out: array<byte>, o: nat, ghost low: nat)
    returns (acc': nat, nbits': nat, o': nat, full: bool, ghost low': nat)
    requires nbits < 8 && Holds(acc, nbits, low) && o <= out.Length
    requires s != [] && s[0] != PAD && !IsBlank(s[0]) && DecVal(s[0]) >= 0
    modifies out
    ensures nbits' < 8 && Holds(acc', nbits', low') && o <= o' <= out.Length && out[..o] == old(out[..o])
    ensures low < Pow2(nbits) && low' < Pow2(nbits')
    ensures DecodeFrom(s, low, nbits, out.Length - o)
            == if full then None else After(out[o..o'], DecodeFrom(s[1..], low', nbits', out.Length - o'))
  {
    hide *;
    HoldsLow(acc, nbits, low);
    var v := DecVal(s[0]);
    AccumulatorStep(acc, low, nbits, v);
    acc', nbits', o', full := ShiftIn(acc, v), nbits + 6, o, false;
    low' := low * 64 + v;
    if nbits' >= 8 {
      EmitStep(s, low, nbits, out.Length - o);
      nbits' := nbits' - 8;
      low' := low' % Pow2(nbits');
      if o >= out.Length {
        full := true;
        return;
      }
      out[o] := ByteAbove(acc', nbits');
      o' := o + 1;
      assert out[o..o'] == [out[o]];
    } else {
      CarryStep(s, low, nbits, out.Length - o);
      assert out[o..o'] == [];
      AfterNil(DecodeFrom(s[1..], low', nbits', out.Length - o'));
    }
  }

  /** Decodes into `out`; -1 for an invalid character or too little room. */
  method Base64Decode(in_: Bytes, out: array<byte>) returns (n: int)
    modifies out
    ensures match Decode(in_, out.Length)
            case None => n == -1
            case Some(bytes) => n == |bytes| <= out.Length && out[..n] == bytes
  {
    hide *;
    ghost var goal := Decode(in_, out.Length);
    var acc: nat, nbits: nat, o: nat, i: nat := 0, 0, 0, 0;
    ghost var low: nat := 0;
    DecodeStarts(in_, out.Length);
    AfterNil(goal);
    assert in_[0..] == in_ && out[..0] == [];
    while i < |in_|
      invariant 0 <= i <= |in_| && 0 <= o <= out.Length && 0 <= nbits < 8
      invariant Holds(acc, nbits, low) && low < Pow2(nbits)
      invariant goal == After(out[..o], DecodeFrom(in_[i..], low, nbits, out.Length - o))
      decreases |in_| - i
    {
      ghost var s, done := in_[i..], out[..o];
      var c := in_[i];
      assert s[0] == c && s[1..] == in_[i + 1..];
      if c == PAD || IsBlank(c) || DecVal(c) < 0 {
        SkipStep(s, low, nbits, out.Length - o);
        if c == PAD {
          AfterAll(done);
          return o;
        }
        if IsBlank(c) {
          i := i + 1;
          continue;
        }
        AfterNone(done);
        return -1;
      }
      ghost var from := o;
      var full;
      acc, nbits, o, full, low := Accept(in_[i..], acc, nbits, out, o, low);
      if full {
        AfterNone(done);
        return -1;
      }
      AfterAppend(done, out[from..o], DecodeFrom(in_[i + 1..], low, nbits, out.Length - o));
      assert out[..o] == done + out[from..o];
      i := i + 1;
    }
    assert in_[i..] == [];
    DecodeEnds(low, nbits, out.Length - o);
    AfterAll(out[..o]);
    n := o;
  }

  lemma DecodeStarts(s: Bytes, room: nat)
    ensures Holds(0, 0, 0) && 0 < Pow2(0) && Decode(s, room) == DecodeFrom(s, 0, 0, room)
  {
    hide DecodeFrom;
  }

  lemma DecodeEnds(low: nat, nbits: nat, room: nat)
    requires nbits < 8 && low < Pow2(nbits)
    ensures DecodeFrom([], low, nbits, room) == Some([])
  {
  }

  lemma AfterAll(done: Bytes)
    ensures After(done, Some([])) == Some(done)
  {
    assert done + [] == done;
  }

  lemma AfterNone(done: Bytes)
    ensures After(done, None) == None
  {
  }

  /** Encodes into `out` with a terminator; -1 when it does not fit. */
  method Base64Encode(in_: Bytes, out: array<byte>) returns (n: int)
    modifies out
    ensures n == if out.Length < EncodedSize(|in_|) then -1 else |Encode(in_)|
    ensures n >= 0 ==> n < out.Length && out[..n] == Encode(in_) && out[n] == 0
    ensures n == -1 ==> out[..] == old(out[..])
  {
    EncodeLength(in_);
    if out.Length < EncodedSize(|in_|) {
      return -1;
    }
    hide Word, Encode, Group, EncodedSize;
    var o, i := 0, 0;
    assert in_[0..] == in_ && out[..0] + Encode(in_) == Encode(in_);
    while i + 3 <= |in_|
      invariant 0 <= i <= |in_| && 0 <= o && o + |Encode(in_[i..])| == |Encode(in_)| < out.Length
      invariant Encode(in_) == out[..o] + Encode(in_[i..])
    {
      ghost var done, rest := out[..o], in_[i..];
      EncodeStep(rest);
      var group := Group(Word(in_[i..i + 3]));
      SliceOf(in_, i);
      o := Put(out, o, group);
      Joined(done, group, Encode(in_[i + 3..]));
      i := i + 3;
    }
    EncodeStep(in_[i..]);
    o := EncodeTail(in_[i..], out, o);
    out[o] := 0;
    n := o;
  }

  lemma SliceOf(s: Bytes, i: nat)
    requires i + 3 <= |s|
    ensures s[i..][..3] == s[i..i + 3] && s[i..][3..] == s[i + 3..]
  {
  }

  lemma Joined(a: Bytes, b: Bytes, c: Bytes)
    ensures a + (b + c) == a + b + c
  {
  }

  /** Writes characters at o and moves on behind them. */
  method Put(out: array<byte>, o: nat, chars: Bytes) returns (next: nat)
    requires o + |chars| <= out.Length
    modifies out
    ensures next == o + |chars| && out[..next] == old(out[..o]) + chars
  {
    forall i | 0 <= i < |chars| {
      out[o + i] := chars[i];
    }
    next := o + |chars|;
  }

  /** The last one or two bytes, padded. */
  method EncodeTail(rest: Bytes, out: array<byte>, start: nat) returns (o: nat)
    requires |rest| < 3 && start + |Encode(rest)| < out.Length
    modifies out
    ensures o == start + |Encode(rest)| && out[..o] == old(out[..start]) + Encode(rest)
  {
    hide Group, Word;
    o := start;
    if |rest| == 1 {
      o := Put(out, o, Group(Word(rest + [0, 0]))[..2] + [PAD, PAD]);
    } else if |rest| == 2 {
      o := Put(out, o, Group(Word(rest + [0]))[..3] + [PAD]);
    } else {
      assert out[..o] + [] == out[..o];
    }
  }
}
