/**
 Standard base64 (section 4 of RFC 4648: alphabet `A-Z a-z 0-9 + /`, `=`
 padding), as the decoder used for binary entries applies it: padding is
 required and must be canonical, and the bits a final padded group leaves
 over must be zero. Under these rules decoding accepts exactly the texts the
 encoder produces, which is what makes a binary entry survive a round trip.
 */
module Base64 {
  import opened Wrappers

  /** An octet of binary data. */
  type Byte = x: int | 0 <= x < 256

  /** A six-bit digit value, 0 to 63. */
  predicate IsSextet(v: int) { 0 <= v < 64 }

  /** The alphabet character of a digit value (Table 1 of RFC 4648). */
  function CharOf(v: int): (c: char)
    requires IsSextet(v)
  {
    if v < 26 then (65 + v) as char          // 'A'..'Z'
    else if v < 52 then (97 + v - 26) as char  // 'a'..'z'
    else if v < 62 then (48 + v - 52) as char  // '0'..'9'
    else if v == 62 then '+'
    else '/'
  }

  /** The digit value of an alphabet character; `None` for anything else, `=` included. */
  function ValueOf(c: char): (r: Option<int>)
    ensures r.Some? ==> IsSextet(r.value)
  {
    if 'A' <= c <= 'Z' then Some(c as int - 65)
    else if 'a' <= c <= 'z' then Some(c as int - 97 + 26)
    else if '0' <= c <= '9' then Some(c as int - 48 + 52)
    else if c == '+' then Some(62)
    else if c == '/' then Some(63)
    else None
  }

  predicate InAlphabet(c: char) { ValueOf(c).Some? }

  /** Every alphabet character is the character of its own digit value. */
  lemma CharOfValueOf(c: char)
    requires InAlphabet(c)
    ensures CharOf(ValueOf(c).value) == c
  {
  }

  /** Every digit value has one character, and that character reads back as the value. */
  lemma ValueOfCharOf(v: int)
    requires IsSextet(v)
    ensures ValueOf(CharOf(v)) == Some(v)
  {
  }

  // The bit surgery of one group: three bytes are 24 bits, cut into four sextets.

  function Sextet0(x: Byte): int { x / 4 }
  function Sextet1(x: Byte, y: Byte): int { (x % 4) * 16 + y / 16 }
  function Sextet2(y: Byte, z: Byte): int { (y % 16) * 4 + z / 64 }
  function Sextet3(z: Byte): int { z % 64 }

  function Byte0(v0: int, v1: int): Byte requires IsSextet(v0) && IsSextet(v1) { v0 * 4 + v1 / 16 }
  function Byte1(v1: int, v2: int): Byte requires IsSextet(v1) && IsSextet(v2) { (v1 % 16) * 16 + v2 / 4 }
  function Byte2(v2: int, v3: int): Byte requires IsSextet(v2) && IsSextet(v3) { (v2 % 4) * 64 + v3 }

  /** The four digits that encode the three bytes `x`, `y`, `z`. */
  function Group(x: Byte, y: Byte, z: Byte): (g: string)
    ensures |g| == 4
  {
    [CharOf(Sextet0(x)), CharOf(Sextet1(x, y)), CharOf(Sextet2(y, z)), CharOf(Sextet3(z))]
  }

  /** The number of four-digit groups that encode `n` bytes: `n / 3` rounded up. */
  function GroupCount(n: nat): nat
  {
    if n == 0 then 0 else if n <= 3 then 1 else 1 + GroupCount(n - 3)
  }

  /**
   Encoding text of bytes: whole groups of three bytes, then a final group of
   one or two bytes written as two or three digits padded with `=`.
   */
  function Encode(b: seq<Byte>): (s: string)
    ensures |s| == 4 * GroupCount(|b|)
    decreases |b|
  {
    if |b| == 0 then []
    else if |b| == 1 then
      var g := Group(b[0], 0, 0); [g[0], g[1], '=', '=']
    else if |b| == 2 then
      var g := Group(b[0], b[1], 0); [g[0], g[1], g[2], '=']
    else Group(b[0], b[1], b[2]) + Encode(b[3..])
  }

  /** The last group of a text: four digits, or two or three digits padded to four. */
  function DecodeLast(a: char, b: char, c: char, d: char): Option<seq<Byte>>
  {
    var v0, v1, v2, v3 := ValueOf(a), ValueOf(b), ValueOf(c), ValueOf(d);
    if v0.None? || v1.None? then None
    else if c == '=' && d == '=' then
      if v1.value % 16 == 0 then Some([Byte0(v0.value, v1.value)]) else None
    else if v2.None? then None
    else if d == '=' then
      if v2.value % 4 == 0 then Some([Byte0(v0.value, v1.value), Byte1(v1.value, v2.value)]) else None
    else if v3.None? then None
    else Some([Byte0(v0.value, v1.value), Byte1(v1.value, v2.value), Byte2(v2.value, v3.value)])
  }

  /** A group before the last one: four digits, no padding. */
  function DecodeInner(a: char, b: char, c: char, d: char): Option<seq<Byte>>
  {
    var v0, v1, v2, v3 := ValueOf(a), ValueOf(b), ValueOf(c), ValueOf(d);
    if v0.None? || v1.None? || v2.None? || v3.None? then None
    else Some([Byte0(v0.value, v1.value), Byte1(v1.value, v2.value), Byte2(v2.value, v3.value)])
  }

  /**
   Decodes a text group by group; `None` when the text is not canonical
   base64. A text it accepts has four digits for every three bytes, the last
   group rounded up.
   */
  function Decode(s: string): (r: Option<seq<Byte>>)
    ensures r.Some? ==> |s| == 4 * GroupCount(|r.value|)
    decreases |s|
  {
    if |s| == 0 then Some([])
    else if |s| < 4 then None
    else if |s| == 4 then DecodeLast(s[0], s[1], s[2], s[3])
    else
      match DecodeInner(s[0], s[1], s[2], s[3])
      case None => None
      case Some(head) =>
        match Decode(s[4..])
        case None => None
        case Some(tail) => Some(head + tail)
  }

  /** Whether the decoder accepts a text. */
  predicate IsBase64(s: string) { Decode(s).Some? }

  lemma FirstByteRoundTrip(x: Byte, y: Byte)
    ensures Byte0(Sextet0(x), Sextet1(x, y)) == x
  {
    var q := y / 16;
    assert 0 <= q < 16;
    assert ((x % 4) * 16 + q) / 16 == x % 4;
  }

  lemma SecondByteRoundTrip(x: Byte, y: Byte, z: Byte)
    ensures Byte1(Sextet1(x, y), Sextet2(y, z)) == y
  {
    var q, r := y / 16, z / 64;
    assert 0 <= q < 16 && 0 <= r < 4;
    assert ((x % 4) * 16 + q) % 16 == q;
    assert ((y % 16) * 4 + r) / 4 == y % 16;
  }

  lemma ThirdByteRoundTrip(y: Byte, z: Byte)
    ensures Byte2(Sextet2(y, z), Sextet3(z)) == z
  {
    var r := z / 64;
    assert 0 <= r < 4;
    assert ((y % 16) * 4 + r) % 4 == r;
  }

  /** Cutting three bytes into sextets and joining them again gives the bytes back. */
  lemma GroupRoundTrip(x: Byte, y: Byte, z: Byte)
    ensures Byte0(Sextet0(x), Sextet1(x, y)) == x
    ensures Byte1(Sextet1(x, y), Sextet2(y, z)) == y
    ensures Byte2(Sextet2(y, z), Sextet3(z)) == z
    ensures Sextet1(x, 0) % 16 == 0 && Sextet2(y, 0) % 4 == 0
  {
    FirstByteRoundTrip(x, y);
    SecondByteRoundTrip(x, y, z);
    ThirdByteRoundTrip(y, z);
  }

  lemma FirstDigitsRoundTrip(v0: int, v1: int, v2: int)
    requires IsSextet(v0) && IsSextet(v1) && IsSextet(v2)
    ensures Sextet0(Byte0(v0, v1)) == v0
    ensures Sextet1(Byte0(v0, v1), Byte1(v1, v2)) == v1
  {
    var hi := v1 / 16;
    assert 0 <= hi < 4;
    assert (v0 * 4 + hi) / 4 == v0 && (v0 * 4 + hi) % 4 == hi;
    assert ((v1 % 16) * 16 + v2 / 4) / 16 == v1 % 16;
  }

  lemma LastDigitsRoundTrip(v1: int, v2: int, v3: int)
    requires IsSextet(v1) && IsSextet(v2) && IsSextet(v3)
    ensures Sextet2(Byte1(v1, v2), Byte2(v2, v3)) == v2
    ensures Sextet3(Byte2(v2, v3)) == v3
  {
    var mid := v2 / 4;
    assert 0 <= mid < 16;
    assert ((v1 % 16) * 16 + mid) % 16 == mid;
    assert ((v2 % 4) * 64 + v3) / 64 == v2 % 4 && ((v2 % 4) * 64 + v3) % 64 == v3;
  }

  /** Joining four sextets into bytes and cutting them again gives the sextets back. */
  lemma DigitsRoundTrip(v0: int, v1: int, v2: int, v3: int)
    requires IsSextet(v0) && IsSextet(v1) && IsSextet(v2) && IsSextet(v3)
    ensures Sextet0(Byte0(v0, v1)) == v0
    ensures Sextet1(Byte0(v0, v1), Byte1(v1, v2)) == v1
    ensures Sextet2(Byte1(v1, v2), Byte2(v2, v3)) == v2
    ensures Sextet3(Byte2(v2, v3)) == v3
    ensures v1 % 16 == 0 ==> Sextet1(Byte0(v0, v1), 0) == v1
    ensures v2 % 4 == 0 ==> Sextet2(Byte1(v1, v2), 0) == v2
  {
    FirstDigitsRoundTrip(v0, v1, v2);
    LastDigitsRoundTrip(v1, v2, v3);
    FirstDigitsRoundTrip(v0, v1, 0);
    LastDigitsRoundTrip(v1, v2, 0);
  }

  lemma GroupDigits(x: Byte, y: Byte, z: Byte)
    ensures var g := Group(x, y, z);
      && ValueOf(g[0]) == Some(Sextet0(x))
      && ValueOf(g[1]) == Some(Sextet1(x, y))
      && ValueOf(g[2]) == Some(Sextet2(y, z))
      && ValueOf(g[3]) == Some(Sextet3(z))
  {
    ValueOfCharOf(Sextet0(x));
    ValueOfCharOf(Sextet1(x, y));
    ValueOfCharOf(Sextet2(y, z));
    ValueOfCharOf(Sextet3(z));
  }

  // How DecodeLast and DecodeInner read groups whose digits are known.

  lemma ReadPaddedTwice(a: char, b: char, v0: int, v1: int)
    requires ValueOf(a) == Some(v0) && ValueOf(b) == Some(v1) && v1 % 16 == 0
    ensures DecodeLast(a, b, '=', '=') == Some([Byte0(v0, v1)])
  {
  }

  lemma ReadPaddedOnce(a: char, b: char, c: char, v0: int, v1: int, v2: int)
    requires ValueOf(a) == Some(v0) && ValueOf(b) == Some(v1) && ValueOf(c) == Some(v2) && v2 % 4 == 0
    ensures DecodeLast(a, b, c, '=') == Some([Byte0(v0, v1), Byte1(v1, v2)])
  {
  }

  lemma ReadFull(a: char, b: char, c: char, d: char, v0: int, v1: int, v2: int, v3: int)
    requires ValueOf(a) == Some(v0) && ValueOf(b) == Some(v1) && ValueOf(c) == Some(v2) && ValueOf(d) == Some(v3)
    ensures DecodeLast(a, b, c, d) == Some([Byte0(v0, v1), Byte1(v1, v2), Byte2(v2, v3)])
    ensures DecodeInner(a, b, c, d) == Some([Byte0(v0, v1), Byte1(v1, v2), Byte2(v2, v3)])
  {
  }

  /** Decode reads a four-character text as a last group. */
  lemma DecodeFour(s: string)
    requires |s| == 4
    ensures Decode(s) == DecodeLast(s[0], s[1], s[2], s[3])
  {
  }

  /** Decode reads a longer text as an inner group followed by the rest. */
  lemma DecodeLonger(s: string, head: seq<Byte>, tail: seq<Byte>)
    requires |s| > 4 && DecodeInner(s[0], s[1], s[2], s[3]) == Some(head) && Decode(s[4..]) == Some(tail)
    ensures Decode(s) == Some(head + tail)
  {
  }

  /** An inner group that decodes, followed by a non-empty text that decodes, decodes to the two results joined. */
  lemma DecodeGroupThenText(g: string, rest: string, head: seq<Byte>, tail: seq<Byte>)
    requires |g| == 4 && |rest| > 0
    requires DecodeInner(g[0], g[1], g[2], g[3]) == Some(head) && Decode(rest) == Some(tail)
    ensures Decode(g + rest) == Some(head + tail)
  {
    var s := g + rest;
    assert s[0] == g[0] && s[1] == g[1] && s[2] == g[2] && s[3] == g[3];
    assert s[4..] == rest;
    DecodeLonger(s, head, tail);
  }

  /** A longer text that decodes is an inner group that decodes followed by a rest that decodes. */
  lemma DecodeLongerParts(s: string, b: seq<Byte>)
    requires |s| > 4 && Decode(s) == Some(b)
    ensures DecodeInner(s[0], s[1], s[2], s[3]).Some? && Decode(s[4..]).Some?
    ensures b == DecodeInner(s[0], s[1], s[2], s[3]).value + Decode(s[4..]).value
  {
  }

  lemma SplitThree(b: seq<Byte>)
    requires |b| >= 3
    ensures [b[0], b[1], b[2]] + b[3..] == b
  {
  }

  /** Encode writes a first group of three bytes and then the rest. */
  lemma EncodeLonger(b: seq<Byte>)
    requires |b| >= 3
    ensures Encode(b) == Group(b[0], b[1], b[2]) + Encode(b[3..])
  {
  }

  /** A final single byte comes back from its two digits and `==`. */
  lemma DecodeEncodeOne(x: Byte)
    ensures Decode(Encode([x])) == Some([x])
  {
    var g := Group(x, 0, 0);
    assert DecodeLast(g[0], g[1], '=', '=') == Some([x]) by {
      GroupRoundTrip(x, 0, 0);
      GroupDigits(x, 0, 0);
      ReadPaddedTwice(g[0], g[1], Sextet0(x), Sextet1(x, 0));
    }
    var s := Encode([x]);
    assert s == [g[0], g[1], '=', '='];
    DecodeFour(s);
  }

  /** A final pair of bytes comes back from its three digits and `=`. */
  lemma DecodeEncodeTwo(x: Byte, y: Byte)
    ensures Decode(Encode([x, y])) == Some([x, y])
  {
    var g := Group(x, y, 0);
    assert DecodeLast(g[0], g[1], g[2], '=') == Some([x, y]) by {
      GroupRoundTrip(x, y, 0);
      GroupDigits(x, y, 0);
      ReadPaddedOnce(g[0], g[1], g[2], Sextet0(x), Sextet1(x, y), Sextet2(y, 0));
    }
    var s := Encode([x, y]);
    assert s == [g[0], g[1], g[2], '='];
    DecodeFour(s);
  }

  /** Any three bytes come back from their four digits, in an inner or a last group. */
  lemma ReadGroup(x: Byte, y: Byte, z: Byte)
    ensures var g := Group(x, y, z);
      && DecodeLast(g[0], g[1], g[2], g[3]) == Some([x, y, z])
      && DecodeInner(g[0], g[1], g[2], g[3]) == Some([x, y, z])
  {
    GroupRoundTrip(x, y, z);
    GroupDigits(x, y, z);
    var g := Group(x, y, z);
    ReadFull(g[0], g[1], g[2], g[3], Sextet0(x), Sextet1(x, y), Sextet2(y, z), Sextet3(z));
  }

  /** A final group of three bytes comes back from its four digits. */
  lemma DecodeEncodeThree(x: Byte, y: Byte, z: Byte)
    ensures Decode(Encode([x, y, z])) == Some([x, y, z])
  {
    ReadGroup(x, y, z);
    var s := Encode([x, y, z]);
    assert s == Group(x, y, z) + Encode([]);
    DecodeFour(s);
  }

  /** Decoding undoes encoding, for every byte sequence. */
  lemma {:induction false} DecodeEncode(b: seq<Byte>)
    ensures Decode(Encode(b)) == Some(b)
    decreases |b|
  {
    if |b| == 0 {
    } else if |b| == 1 {
      DecodeEncodeOne(b[0]);
      assert b == [b[0]];
    } else if |b| == 2 {
      DecodeEncodeTwo(b[0], b[1]);
      assert b == [b[0], b[1]];
    } else if |b| == 3 {
      DecodeEncodeThree(b[0], b[1], b[2]);
      assert b == [b[0], b[1], b[2]];
    } else {
      DecodeEncode(b[3..]);
      DecodeGroupThenRest(b);
    }
  }

  /** Bytes after the first group that come back from their encoding bring the whole sequence back. */
  lemma DecodeGroupThenRest(b: seq<Byte>)
    requires |b| > 3 && Decode(Encode(b[3..])) == Some(b[3..])
    ensures Decode(Encode(b)) == Some(b)
  {
    var g, rest := Group(b[0], b[1], b[2]), Encode(b[3..]);
    assert |rest| > 0;
    ReadGroup(b[0], b[1], b[2]);
    DecodeGroupThenText(g, rest, [b[0], b[1], b[2]], b[3..]);
    EncodeLonger(b);
    SplitThree(b);
  }

  /** Three bytes read from four digits are encoded by those same digits. */
  lemma GroupOfDigits(a: char, b: char, c: char, d: char, v0: int, v1: int, v2: int, v3: int)
    requires ValueOf(a) == Some(v0) && ValueOf(b) == Some(v1) && ValueOf(c) == Some(v2) && ValueOf(d) == Some(v3)
    ensures Group(Byte0(v0, v1), Byte1(v1, v2), Byte2(v2, v3)) == [a, b, c, d]
  {
    DigitsRoundTrip(v0, v1, v2, v3);
    CharOfValueOf(a);
    CharOfValueOf(b);
    CharOfValueOf(c);
    CharOfValueOf(d);
  }

  /** A full group that decodes is the encoding of the three bytes it yields. */
  lemma EncodeInnerGroup(a: char, b: char, c: char, d: char, head: seq<Byte>)
    requires DecodeInner(a, b, c, d) == Some(head) || (d != '=' && DecodeLast(a, b, c, d) == Some(head))
    ensures |head| == 3 && Group(head[0], head[1], head[2]) == [a, b, c, d]
  {
    GroupOfDigits(a, b, c, d, ValueOf(a).value, ValueOf(b).value, ValueOf(c).value, ValueOf(d).value);
  }

  lemma EncodeOneShape(x: Byte)
    ensures Encode([x]) == [CharOf(Sextet0(x)), CharOf(Sextet1(x, 0)), '=', '=']
  {
  }

  lemma EncodeTwoShape(x: Byte, y: Byte)
    ensures Encode([x, y]) == [CharOf(Sextet0(x)), CharOf(Sextet1(x, y)), CharOf(Sextet2(y, 0)), '=']
  {
  }

  /** Two digits padded with `==` are the encoding of the one byte they yield. */
  lemma EncodePaddedTwice(a: char, b: char, v0: int, v1: int)
    requires ValueOf(a) == Some(v0) && ValueOf(b) == Some(v1) && v1 % 16 == 0
    ensures Encode([Byte0(v0, v1)]) == [a, b, '=', '=']
  {
    var x := Byte0(v0, v1);
    assert Sextet0(x) == v0 && Sextet1(x, 0) == v1 by {
      DigitsRoundTrip(v0, v1, 0, 0);
    }
    EncodeOneShape(x);
    CharOfValueOf(a);
    CharOfValueOf(b);
  }

  /** Three digits padded with `=` are the encoding of the two bytes they yield. */
  lemma EncodePaddedOnce(a: char, b: char, c: char, v0: int, v1: int, v2: int)
    requires ValueOf(a) == Some(v0) && ValueOf(b) == Some(v1) && ValueOf(c) == Some(v2) && v2 % 4 == 0
    ensures Encode([Byte0(v0, v1), Byte1(v1, v2)]) == [a, b, c, '=']
  {
    var x, y := Byte0(v0, v1), Byte1(v1, v2);
    assert Sextet0(x) == v0 && Sextet1(x, y) == v1 && Sextet2(y, 0) == v2 by {
      DigitsRoundTrip(v0, v1, v2, 0);
    }
    EncodeTwoShape(x, y);
    CharOfValueOf(a);
    CharOfValueOf(b);
    CharOfValueOf(c);
  }

  /** A last group that decodes is the (padded) encoding of the bytes it yields. */
  lemma EncodeLastGroup(a: char, b: char, c: char, d: char, bytes: seq<Byte>)
    requires DecodeLast(a, b, c, d) == Some(bytes)
    ensures Encode(bytes) == [a, b, c, d]
  {
    var v0, v1 := ValueOf(a).value, ValueOf(b).value;
    if c == '=' && d == '=' {
      EncodePaddedTwice(a, b, v0, v1);
    } else if d == '=' {
      EncodePaddedOnce(a, b, c, v0, v1, ValueOf(c).value);
    } else {
      EncodeInnerGroup(a, b, c, d, bytes);
      assert Encode(bytes) == Group(bytes[0], bytes[1], bytes[2]) + Encode([]);
    }
  }

  /** An inner group followed by a canonical rest is the encoding of the bytes they decode to. */
  lemma EncodeInnerThenRest(s: string, head: seq<Byte>, tail: seq<Byte>)
    requires |s| > 4 && DecodeInner(s[0], s[1], s[2], s[3]) == Some(head)
    requires Encode(tail) == s[4..]
    ensures Encode(head + tail) == s
  {
    EncodeInnerGroup(s[0], s[1], s[2], s[3], head);
    var b := head + tail;
    assert b[3..] == tail;
    EncodeLonger(b);
    assert s == s[..4] + s[4..];
  }

  /** Decoding is canonical: whatever it accepts is exactly the encoding of what it returns. */
  lemma {:induction false} EncodeDecode(s: string, b: seq<Byte>)
    requires Decode(s) == Some(b)
    ensures Encode(b) == s
    decreases |s|
  {
    if |s| == 0 {
    } else if |s| == 4 {
      DecodeFour(s);
      EncodeLastGroup(s[0], s[1], s[2], s[3], b);
      assert s == [s[0], s[1], s[2], s[3]];
    } else {
      DecodeLongerParts(s, b);
      var head := DecodeInner(s[0], s[1], s[2], s[3]).value;
      var tail := Decode(s[4..]).value;
      EncodeDecode(s[4..], tail);
      EncodeInnerThenRest(s, head, tail);
    }
  }

  /** The decoder accepts a text exactly when it is the encoding of some bytes. */
  lemma DecodeIffEncoding(s: string, b: seq<Byte>)
    ensures Decode(s) == Some(b) <==> Encode(b) == s
  {
    if Decode(s) == Some(b) {
      EncodeDecode(s, b);
    }
    if Encode(b) == s {
      DecodeEncode(b);
    }
  }

  lemma EncodeLengthIsMultiple(b: seq<Byte>)
    ensures |Encode(b)| % 4 == 0
  {
    assert (4 * GroupCount(|b|)) % 4 == 0;
  }

  /** Every character of `s` is an alphabet digit or the pad `=`. */
  predicate DigitsOrPad(s: string)
  {
    forall i :: 0 <= i < |s| ==> InAlphabet(s[i]) || s[i] == '='
  }

  lemma GroupDigitsOrPad(x: Byte, y: Byte, z: Byte)
    ensures var g := Group(x, y, z);
      && DigitsOrPad(g)
      && DigitsOrPad([g[0], g[1], '=', '='])
      && DigitsOrPad([g[0], g[1], g[2], '='])
  {
    GroupDigits(x, y, z);
  }

  /** Every character of an encoding is an alphabet digit or the pad `=`. */
  lemma {:induction false} EncodeChars(b: seq<Byte>)
    ensures DigitsOrPad(Encode(b))
    decreases |b|
  {
    if |b| > 0 {
      var x, y, z := b[0], if |b| > 1 then b[1] else 0, if |b| > 2 then b[2] else 0;
      GroupDigitsOrPad(x, y, z);
      if |b| >= 3 {
        EncodeChars(b[3..]);
        var g, rest := Group(x, y, z), Encode(b[3..]);
        assert Encode(b) == g + rest;
        assert forall i :: 0 <= i < |g + rest| ==> (g + rest)[i] == if i < 4 then g[i] else rest[i - 4];
      }
    }
  }

  /** A text whose length is not a multiple of four is rejected. */
  lemma RejectsRaggedLength(s: string)
    requires |s| % 4 != 0
    ensures !IsBase64(s)
  {
    if IsBase64(s) {
      var b := Decode(s).value;
      EncodeDecode(s, b);
      EncodeLengthIsMultiple(b);
    }
  }

  /** A text holding a character outside the alphabet other than `=` is rejected. */
  lemma RejectsForeignChar(s: string, i: int)
    requires 0 <= i < |s| && !InAlphabet(s[i]) && s[i] != '='
    ensures !IsBase64(s)
  {
    if IsBase64(s) {
      var b := Decode(s).value;
      EncodeDecode(s, b);
      EncodeChars(b);
    }
  }
}
