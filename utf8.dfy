/**
 * UTF-8 as the WHATWG Encoding Standard defines it: the UTF-8 encoder that
 * turns a string of Unicode scalar values into bytes, and the UTF-8 decoder
 * (error mode "replacement") that turns any byte sequence back into a
 * string, replacing every malformed part with U+FFFD.
 */
module Utf8 {
  type Byte = b: int | 0 <= b < 0x100

  /** U+FFFD, what the decoder emits for a malformed byte sequence. */
  const Replacement: char := '�'

  /** The UTF-8 encoding of one scalar value: one to four bytes. */
  function EncodeChar(c: char): (r: seq<Byte>)
    ensures 1 <= |r| <= 4
    ensures |r| == 1 <==> c as int < 0x80
    ensures |r| == 1 ==> r[0] == c as int
  {
    var n := c as int;
    if n < 0x80 then [n]
    else if n < 0x800 then [0xC0 + n / 0x40, 0x80 + n % 0x40]
    else if n < 0x1_0000 then [0xE0 + n / 0x1000, 0x80 + n / 0x40 % 0x40, 0x80 + n % 0x40]
    else [0xF0 + n / 0x4_0000, 0x80 + n / 0x1000 % 0x40, 0x80 + n / 0x40 % 0x40, 0x80 + n % 0x40]
  }

  /** "UTF-8 encode": the encodings of the characters, one after the other. */
  function Encode(s: string): (r: seq<Byte>)
    ensures |r| >= |s|
  {
    if s == [] then [] else EncodeChar(s[0]) + Encode(s[1..])
  }

  /** An ASCII string encodes to its own code points, byte for byte. */
  predicate IsAscii(s: string) {
    forall i | 0 <= i < |s| :: s[i] as int < 0x80
  }

  /** The state the UTF-8 decoder keeps between bytes. */
  datatype Decoder = Decoder(codePoint: int, seen: nat, needed: nat, lower: int, upper: int)

  /** No multi-byte sequence is under way. */
  const Idle := Decoder(0, 0, 0, 0x80, 0xBF)

  /**
   * The decoder states reachable from `Idle`: the bounds a lead byte sets
   * exclude overlong forms, surrogates and values past U+10FFFF, so every
   * completed sequence is a scalar value.
   */
  predicate Consistent(d: Decoder) {
    if d.needed == 0 then d == Idle
    else
      && d.seen < d.needed <= 3
      && (d.seen > 0 ==> d.lower == 0x80 && d.upper == 0xBF)
      && (d.needed == 1 ==> 0x2 <= d.codePoint <= 0x1F && d.lower == 0x80 && d.upper == 0xBF)
      && (d.needed == 2 && d.seen == 0 ==>
            && 0 <= d.codePoint <= 0xF
            && d.lower == (if d.codePoint == 0 then 0xA0 else 0x80)
            && d.upper == (if d.codePoint == 0xD then 0x9F else 0xBF))
      && (d.needed == 2 && d.seen == 1 ==> 0x20 <= d.codePoint <= 0x3FF && !(0x360 <= d.codePoint <= 0x37F))
      && (d.needed == 3 && d.seen == 0 ==>
            && 0 <= d.codePoint <= 4
            && d.lower == (if d.codePoint == 0 then 0x90 else 0x80)
            && d.upper == (if d.codePoint == 4 then 0x8F else 0xBF))
      && (d.needed == 3 && d.seen == 1 ==> 0x10 <= d.codePoint <= 0x10F)
      && (d.needed == 3 && d.seen == 2 ==> 0x400 <= d.codePoint <= 0x43FF)
  }

  /** The state after a lead byte of a multi-byte sequence. */
  function Lead(b: Byte): (d: Decoder)
    requires 0xC2 <= b <= 0xF4
    ensures Consistent(d) && d.needed > 0 && d.seen == 0
  {
    if b <= 0xDF then Decoder(b - 0xC0, 0, 1, 0x80, 0xBF)
    else if b <= 0xEF then Decoder(b - 0xE0, 0, 2, if b == 0xE0 then 0xA0 else 0x80, if b == 0xED then 0x9F else 0xBF)
    else Decoder(b - 0xF0, 0, 3, if b == 0xF0 then 0x90 else 0x80, if b == 0xF4 then 0x8F else 0xBF)
  }

  /** A continuation byte within the bounds extends the code point by six bits. */
  function Continue(d: Decoder, b: Byte): (r: Decoder)
    requires Consistent(d) && d.needed > 0 && d.lower <= b <= d.upper && d.seen + 1 < d.needed
    ensures Consistent(r) && r.needed == d.needed && r.seen == d.seen + 1
  {
    Decoder(d.codePoint * 0x40 + (b - 0x80), d.seen + 1, d.needed, 0x80, 0xBF)
  }

  /** The scalar value a last continuation byte within the bounds completes. */
  function Complete(d: Decoder, b: Byte): (c: char)
    requires Consistent(d) && d.needed > 0 && d.lower <= b <= d.upper && d.seen + 1 == d.needed
    ensures c as int == d.codePoint * 0x40 + (b - 0x80)
  {
    (d.codePoint * 0x40 + (b - 0x80)) as char
  }

  /**
   * The UTF-8 decoder run over `bytes` from state `d`: an ASCII byte is
   * itself, a lead byte starts a sequence, a byte that cannot follow is an
   * error and is looked at again from `Idle`, a byte that can never start a
   * sequence is an error, and input that ends inside a sequence is one more
   * error.
   */
  function DecodeFrom(bytes: seq<Byte>, d: Decoder): string
    requires Consistent(d)
    decreases |bytes|, d.needed
  {
    if bytes == [] then
      if d.needed == 0 then [] else [Replacement]
    else
      var b := bytes[0];
      if d.needed == 0 then
        if b <= 0x7F then [b as char] + DecodeFrom(bytes[1..], Idle)
        else if 0xC2 <= b <= 0xF4 then DecodeFrom(bytes[1..], Lead(b))
        else [Replacement] + DecodeFrom(bytes[1..], Idle)
      else if !(d.lower <= b <= d.upper) then
        [Replacement] + DecodeFrom(bytes, Idle)
      else if d.seen + 1 == d.needed then
        [Complete(d, b)] + DecodeFrom(bytes[1..], Idle)
      else
        DecodeFrom(bytes[1..], Continue(d, b))
  }

  /** "UTF-8 decode without BOM". */
  function Decode(bytes: seq<Byte>): string {
    DecodeFrom(bytes, Idle)
  }

  lemma EncodeAppend(s: string, t: string)
    ensures Encode(s + t) == Encode(s) + Encode(t)
  {
    if s != [] {
      calc {
        Encode(s + t);
        EncodeChar(s[0]) + Encode((s + t)[1..]);
        { assert (s + t)[1..] == s[1..] + t; EncodeAppend(s[1..], t); }
        EncodeChar(s[0]) + (Encode(s[1..]) + Encode(t));
        (EncodeChar(s[0]) + Encode(s[1..])) + Encode(t);
        Encode(s) + Encode(t);
      }
    } else {
      assert s + t == t;
    }
  }

  /** The encoding of an ASCII string is its code points, byte for byte. */
  lemma EncodeAscii(s: string)
    requires IsAscii(s)
    ensures |Encode(s)| == |s|
    ensures forall i | 0 <= i < |s| :: Encode(s)[i] == s[i] as int
  {
    if s != [] {
      EncodeAscii(s[1..]);
    }
  }

  /** Decoding a two-byte encoding yields the character back. */
  lemma DecodeTwo(c: char, rest: seq<Byte>)
    requires 0x80 <= c as int < 0x800
    ensures DecodeFrom(EncodeChar(c) + rest, Idle) == [c] + DecodeFrom(rest, Idle)
  {
    var n := c as int;
    var e := EncodeChar(c);
    var d := Lead(e[0]);
    assert d.codePoint == n / 0x40;
    assert (EncodeChar(c) + rest)[1..] == [e[1]] + rest;
    assert ([e[1]] + rest)[1..] == rest;
  }

  /** The decoder's steps over a three-byte encoding stay within the bounds and end on the character. */
  lemma ThreeSteps(c: char)
    requires 0x800 <= c as int < 0x1_0000
    ensures var e := EncodeChar(c);
            && |e| == 3 && 0xE0 <= e[0] <= 0xEF
            && var d0 := Lead(e[0]);
            && d0.lower <= e[1] <= d0.upper && d0.seen + 1 < d0.needed
            && var d1 := Continue(d0, e[1]);
            && d1.lower <= e[2] <= d1.upper && d1.seen + 1 == d1.needed
            && Complete(d1, e[2]) == c
  {
    var n := c as int;
    Sextets(n);
    var q1 := n / 0x40;
    var q2 := q1 / 0x40;
    var e := EncodeChar(c);
    assert e == [0xE0 + q2, 0x80 + q1 % 0x40, 0x80 + n % 0x40];
    var d0 := Lead(e[0]);
    assert d0.codePoint == q2;
    var d1 := Continue(d0, e[1]);
    assert d1.codePoint == q1;
  }

  /** Decoding a three-byte encoding yields the character back. */
  lemma DecodeThree(c: char, rest: seq<Byte>)
    requires 0x800 <= c as int < 0x1_0000
    ensures DecodeFrom(EncodeChar(c) + rest, Idle) == [c] + DecodeFrom(rest, Idle)
  {
    var e := EncodeChar(c);
    ThreeSteps(c);
    var d0 := Lead(e[0]);
    var d1 := Continue(d0, e[1]);
    assert (e + rest)[1..] == [e[1], e[2]] + rest;
    assert ([e[1], e[2]] + rest)[1..] == [e[2]] + rest;
    assert ([e[2]] + rest)[1..] == rest;
    calc {
      DecodeFrom(e + rest, Idle);
      DecodeFrom([e[1], e[2]] + rest, d0);
      DecodeFrom([e[2]] + rest, d1);
      [c] + DecodeFrom(rest, Idle);
    }
  }

  /** Dividing by 2^12 or 2^18 is dividing by 2^6 two or three times over. */
  lemma Sextets(n: nat)
    ensures n / 0x1000 == n / 0x40 / 0x40
    ensures n / 0x4_0000 == n / 0x40 / 0x40 / 0x40
  {
    var q1, r1 := n / 0x40, n % 0x40;
    var q2, r2 := q1 / 0x40, q1 % 0x40;
    var q3, r3 := q2 / 0x40, q2 % 0x40;
    assert n == q2 * 0x1000 + (r2 * 0x40 + r1);
    assert n == q3 * 0x4_0000 + (r3 * 0x1000 + r2 * 0x40 + r1);
  }

  /** The decoder's steps over a four-byte encoding stay within the bounds and end on the character. */
  lemma FourSteps(c: char)
    requires 0x1_0000 <= c as int
    ensures var e := EncodeChar(c);
            && |e| == 4 && 0xF0 <= e[0] <= 0xF4
            && var d0 := Lead(e[0]);
            && d0.lower <= e[1] <= d0.upper && d0.seen + 1 < d0.needed
            && var d1 := Continue(d0, e[1]);
            && d1.lower <= e[2] <= d1.upper && d1.seen + 1 < d1.needed
            && var d2 := Continue(d1, e[2]);
            && d2.lower <= e[3] <= d2.upper && d2.seen + 1 == d2.needed
            && Complete(d2, e[3]) == c
  {
    var n := c as int;
    Sextets(n);
    var q1 := n / 0x40;
    var q2 := q1 / 0x40;
    var q3 := q2 / 0x40;
    var e := EncodeChar(c);
    assert e == [0xF0 + q3, 0x80 + q2 % 0x40, 0x80 + q1 % 0x40, 0x80 + n % 0x40];
    assert 1 <= q3 <= 4 || (q3 == 0 && 0x10 <= q2);
    assert q3 == 4 ==> q2 <= 0x10F;
    var d0 := Lead(e[0]);
    assert d0.codePoint == q3;
    var d1 := Continue(d0, e[1]);
    assert d1.codePoint == q2;
    var d2 := Continue(d1, e[2]);
    assert d2.codePoint == q1;
  }

  /** Decoding a four-byte encoding yields the character back. */
  lemma DecodeFour(c: char, rest: seq<Byte>)
    requires 0x1_0000 <= c as int
    ensures DecodeFrom(EncodeChar(c) + rest, Idle) == [c] + DecodeFrom(rest, Idle)
  {
    var e := EncodeChar(c);
    FourSteps(c);
    var d0 := Lead(e[0]);
    var d1 := Continue(d0, e[1]);
    var d2 := Continue(d1, e[2]);
    assert (e + rest)[1..] == [e[1], e[2], e[3]] + rest;
    assert ([e[1], e[2], e[3]] + rest)[1..] == [e[2], e[3]] + rest;
    assert ([e[2], e[3]] + rest)[1..] == [e[3]] + rest;
    assert ([e[3]] + rest)[1..] == rest;
    calc {
      DecodeFrom(e + rest, Idle);
      DecodeFrom([e[1], e[2], e[3]] + rest, d0);
      DecodeFrom([e[2], e[3]] + rest, d1);
      DecodeFrom([e[3]] + rest, d2);
      [c] + DecodeFrom(rest, Idle);
    }
  }

  /** Decoding the encoding of one character yields that character. */
  lemma DecodeChar(c: char, rest: seq<Byte>)
    ensures DecodeFrom(EncodeChar(c) + rest, Idle) == [c] + DecodeFrom(rest, Idle)
  {
    var n := c as int;
    if n < 0x80 {
      assert (EncodeChar(c) + rest)[1..] == rest;
    } else if n < 0x800 {
      DecodeTwo(c, rest);
    } else if n < 0x1_0000 {
      DecodeThree(c, rest);
    } else {
      DecodeFour(c, rest);
    }
  }

  /** The decoder inverts the encoder: every string survives a UTF-8 round trip. */
  lemma {:induction false} DecodeEncode(s: string)
    ensures Decode(Encode(s)) == s
  {
    if s != [] {
      DecodeChar(s[0], Encode(s[1..]));
      DecodeEncode(s[1..]);
    }
  }
}
