/**
 * The application/x-www-form-urlencoded format of the WHATWG URL Standard
 * (section 5), which `URLSearchParams` reads and writes: the serializer
 * (section 5.2) percent-encodes every name and value with the
 * application/x-www-form-urlencoded percent-encode set, spaces as `+`, and
 * joins the tuples as `name=value` with `&`; the parser (section 5.1)
 * splits on `&`, cuts each part at its first `=`, turns `+` back into a
 * space and percent-decodes.
 */
module FormUrlencoded {
  import opened Utf8

  /** A list of name-value tuples, in order; a name may occur more than once. */
  type Pairs = seq<(string, string)>

  const Space: Byte := 0x20
  const Percent: Byte := 0x25
  const Amp: Byte := 0x26
  const Plus: Byte := 0x2B
  const Equals: Byte := 0x3D

  /** The percent-encode sets of section 1.3 of the URL Standard, each built on the previous one. */
  predicate InC0ControlSet(c: int) {
    0 <= c <= 0x1F || c > 0x7E
  }

  predicate InQuerySet(c: int) {
    InC0ControlSet(c) || c in {0x20, 0x22, 0x23, 0x3C, 0x3E}
  }

  predicate InPathSet(c: int) {
    InQuerySet(c) || c in {0x3F, 0x5E, 0x60, 0x7B, 0x7D}
  }

  predicate InUserinfoSet(c: int) {
    InPathSet(c) || c in {0x2F, 0x3A, 0x3B, 0x3D, 0x40, 0x7C} || 0x5B <= c <= 0x5E
  }

  predicate InComponentSet(c: int) {
    InUserinfoSet(c) || 0x24 <= c <= 0x26 || c in {0x2B, 0x2C}
  }

  predicate InFormSet(c: int) {
    InComponentSet(c) || 0x27 <= c <= 0x29 || c in {0x21, 0x7E}
  }

  /** The bytes the serializer leaves as they are: ASCII alphanumerics and `*`, `-`, `.`, `_`. */
  lemma FormSetComplement(b: Byte)
    ensures !InFormSet(b) <==>
              || 0x30 <= b <= 0x39 || 0x41 <= b <= 0x5A || 0x61 <= b <= 0x7A
              || b in {0x2A, 0x2D, 0x2E, 0x5F}
  {
  }

  /** The byte of an ASCII upper hex digit. */
  function HexByte(v: int): Byte
    requires 0 <= v < 16
  {
    if v < 10 then 0x30 + v else 0x41 + v - 10
  }

  /** An ASCII upper hex digit. */
  function HexDigit(v: int): (c: char)
    requires 0 <= v < 16
    ensures c in "0123456789ABCDEF"
  {
    HexByte(v) as char
  }

  predicate IsHexDigit(b: Byte) {
    0x30 <= b <= 0x39 || 0x41 <= b <= 0x46 || 0x61 <= b <= 0x66
  }

  function HexValue(b: Byte): (v: int)
    requires IsHexDigit(b)
    ensures 0 <= v < 16
  {
    if b <= 0x39 then b - 0x30 else if b <= 0x46 then b - 0x41 + 10 else b - 0x61 + 10
  }

  /** A string the serializer can emit for one name or value: ASCII, with no `&` and no `=`. */
  predicate Plain(t: string) {
    forall i | 0 <= i < |t| :: t[i] as int < 0x80 && t[i] != '&' && t[i] != '='
  }

  /**
   * One byte of a name or value: a space becomes `+`, a byte outside the
   * percent-encode set stays, every other byte becomes `%` and two upper
   * hex digits.
   */
  function EncodeByte(b: Byte): (t: string)
    ensures Plain(t)
  {
    if b == Space then "+"
    else if !InFormSet(b) then [b as char]
    else ['%', HexDigit(b / 16), HexDigit(b % 16)]
  }

  function EncodeBytes(bs: seq<Byte>): (t: string)
    ensures Plain(t)
  {
    if bs == [] then "" else EncodeByte(bs[0]) + EncodeBytes(bs[1..])
  }

  /** "Percent-encode after encoding" with UTF-8, the form set and space as `+`. */
  function PercentEncode(s: string): (t: string)
    ensures Plain(t)
  {
    EncodeBytes(Encode(s))
  }

  function SerializePair(p: (string, string)): string {
    PercentEncode(p.0) + "=" + PercentEncode(p.1)
  }

  /** The application/x-www-form-urlencoded serializer: the encoded tuples joined with `&`. */
  function Serialize(list: Pairs): string {
    if list == [] then ""
    else if |list| == 1 then SerializePair(list[0])
    else SerializePair(list[0]) + "&" + Serialize(list[1..])
  }

  /** The position of the first `x` in `bs`. */
  function FirstIndex(bs: seq<Byte>, x: Byte): (i: nat)
    requires x in bs
    ensures i < |bs| && bs[i] == x && x !in bs[..i]
  {
    if bs[0] == x then 0
    else
      var i := FirstIndex(bs[1..], x) + 1;
      assert bs[..i] == [bs[0]] + bs[1..][..i - 1];
      i
  }

  /** The first `x` after a prefix without one is right after that prefix. */
  lemma FirstIndexAt(a: seq<Byte>, x: Byte, b: seq<Byte>)
    requires x !in a
    ensures x in a + [x] + b && FirstIndex(a + [x] + b, x) == |a|
  {
    var bs := a + [x] + b;
    assert bs[|a|] == x;
    assert bs[..|a|] == a;
  }

  /** "Strictly split" `bs` on `sep`: the parts between the separators, at least one. */
  function Split(bs: seq<Byte>, sep: Byte): (parts: seq<seq<Byte>>)
    ensures |parts| >= 1
    decreases |bs|
  {
    if sep in bs then
      var i := FirstIndex(bs, sep);
      [bs[..i]] + Split(bs[i + 1..], sep)
    else [bs]
  }

  function PlusToSpace(bs: seq<Byte>): seq<Byte> {
    seq(|bs|, i requires 0 <= i < |bs| => if bs[i] == Plus then Space else bs[i])
  }

  /** "Percent-decode": `%` and two hex digits is one byte, anything else stays. */
  function PercentDecode(bs: seq<Byte>): (r: seq<Byte>)
    ensures |r| <= |bs|
  {
    if bs == [] then []
    else if bs[0] == Percent && |bs| >= 3 && IsHexDigit(bs[1]) && IsHexDigit(bs[2]) then
      [HexValue(bs[1]) * 16 + HexValue(bs[2])] + PercentDecode(bs[3..])
    else [bs[0]] + PercentDecode(bs[1..])
  }

  function DecodeComponent(bs: seq<Byte>): string {
    Decode(PercentDecode(PlusToSpace(bs)))
  }

  /** One non-empty part: the name up to the first `=`, the value after it (empty when there is no `=`). */
  function ParseTuple(bytes: seq<Byte>): (string, string) {
    if Equals in bytes then
      var i := FirstIndex(bytes, Equals);
      (DecodeComponent(bytes[..i]), DecodeComponent(bytes[i + 1..]))
    else (DecodeComponent(bytes), "")
  }

  function ParseParts(parts: seq<seq<Byte>>): Pairs {
    if parts == [] then []
    else (if parts[0] == [] then [] else [ParseTuple(parts[0])]) + ParseParts(parts[1..])
  }

  /** The application/x-www-form-urlencoded string parser: empty parts are skipped. */
  function Parse(input: string): Pairs {
    ParseParts(Split(Encode(input), Amp))
  }

  lemma PlusToSpaceAppend(a: seq<Byte>, b: seq<Byte>)
    ensures PlusToSpace(a + b) == PlusToSpace(a) + PlusToSpace(b)
  {
  }

  /** The bytes of a plain string are its characters: no `&`, no `=`. */
  lemma PlainBytes(t: string)
    requires Plain(t)
    ensures Amp !in Encode(t) && Equals !in Encode(t)
  {
    EncodeAscii(t);
  }

  /** A hex digit reads back as the value it was written for. */
  lemma HexRoundTrip(v: int)
    requires 0 <= v < 16
    ensures IsHexDigit(HexByte(v)) && HexValue(HexByte(v)) == v
  {
  }

  /** `%` and two hex digits decode to the byte they spell. */
  lemma DecodeHexPair(hi: Byte, lo: Byte, rest: seq<Byte>)
    requires IsHexDigit(hi) && IsHexDigit(lo)
    ensures PercentDecode([Percent, hi, lo] + rest) == [HexValue(hi) * 16 + HexValue(lo)] + PercentDecode(rest)
  {
    assert ([Percent, hi, lo] + rest)[3..] == rest;
  }

  /** `%` and the hex digits of `high` and `low` decode to the byte `high * 16 + low`. */
  lemma DecodeHexDigits(high: int, low: int, rest: seq<Byte>)
    requires 0 <= high < 16 && 0 <= low < 16
    ensures PercentDecode([Percent, HexByte(high), HexByte(low)] + rest) == [high * 16 + low] + PercentDecode(rest)
  {
    HexRoundTrip(high);
    HexRoundTrip(low);
    DecodeHexPair(HexByte(high), HexByte(low), rest);
  }

  /** A percent-encoded byte: `%` and its two hex digits decode to the byte. */
  lemma DecodeEscape(b: Byte, rest: seq<Byte>)
    ensures PercentDecode([Percent, HexByte(b / 16), HexByte(b % 16)] + rest) == [b] + PercentDecode(rest)
  {
    DecodeHexDigits(b / 16, b % 16, rest);
    assert b / 16 * 16 + b % 16 == b;
  }

  /** A byte that is not `%` decodes to itself. */
  lemma DecodeLiteral(b: Byte, rest: seq<Byte>)
    requires b != Percent
    ensures PercentDecode([b] + rest) == [b] + PercentDecode(rest)
  {
    assert ([b] + rest)[1..] == rest;
  }

  /** The bytes of the encoding of one byte, with `+` already read as a space. */
  lemma EncodedByteBytes(b: Byte)
    ensures PlusToSpace(Encode(EncodeByte(b))) ==
              if b == Space then [Space]
              else if !InFormSet(b) then [b]
              else [Percent, HexByte(b / 16), HexByte(b % 16)]
  {
    EncodeAscii(EncodeByte(b));
  }

  /** Decoding the encoding of one byte gives that byte back, whatever follows. */
  lemma DecodeEncodedByte(b: Byte, rest: seq<Byte>)
    ensures PercentDecode(PlusToSpace(Encode(EncodeByte(b))) + rest) == [b] + PercentDecode(rest)
  {
    EncodedByteBytes(b);
    if b == Space || !InFormSet(b) {
      DecodeLiteral(b, rest);
    } else {
      DecodeEscape(b, rest);
    }
  }

  lemma {:induction false} DecodeEncodedBytes(bs: seq<Byte>)
    ensures PercentDecode(PlusToSpace(Encode(EncodeBytes(bs)))) == bs
  {
    if bs != [] {
      var head := EncodeByte(bs[0]);
      var tail := EncodeBytes(bs[1..]);
      EncodeAppend(head, tail);
      PlusToSpaceAppend(Encode(head), Encode(tail));
      DecodeEncodedByte(bs[0], PlusToSpace(Encode(tail)));
      DecodeEncodedBytes(bs[1..]);
    }
  }

  /** A percent-encoded name or value decodes to itself. */
  lemma DecodePercentEncoded(s: string)
    ensures DecodeComponent(Encode(PercentEncode(s))) == s
  {
    DecodeEncodedBytes(Encode(s));
    DecodeEncode(s);
  }

  /** A serialized tuple parses back to itself. */
  lemma ParseSerializedPair(p: (string, string))
    ensures Amp !in Encode(SerializePair(p))
    ensures ParseTuple(Encode(SerializePair(p))) == p
  {
    SerializedPairSplit(p);
    PlainBytes(PercentEncode(p.0));
    PlainBytes(PercentEncode(p.1));
    ParseTupleAt(Encode(PercentEncode(p.0)), Encode(PercentEncode(p.1)));
    DecodePercentEncoded(p.0);
    DecodePercentEncoded(p.1);
  }

  /** The bytes of a serialized tuple: the encoded name, `=`, the encoded value. */
  lemma SerializedPairSplit(p: (string, string))
    ensures Encode(SerializePair(p)) == Encode(PercentEncode(p.0)) + [Equals] + Encode(PercentEncode(p.1))
  {
    EncodeAppend(PercentEncode(p.0), "=");
    EncodeAppend(PercentEncode(p.0) + "=", PercentEncode(p.1));
    assert Encode("=") == [Equals];
  }

  /** A tuple whose name holds no `=` is split at the `=` after it. */
  lemma ParseTupleAt(name: seq<Byte>, value: seq<Byte>)
    requires Equals !in name
    ensures ParseTuple(name + [Equals] + value) == (DecodeComponent(name), DecodeComponent(value))
  {
    var bytes := name + [Equals] + value;
    FirstIndexAt(name, Equals, value);
    var i := FirstIndex(bytes, Equals);
    assert bytes[..i] == name && bytes[i + 1..] == value;
  }

  /** Splitting at a first separator. */
  lemma SplitFirst(a: seq<Byte>, sep: Byte, b: seq<Byte>)
    requires sep !in a
    ensures Split(a + [sep] + b, sep) == [a] + Split(b, sep)
  {
    var bs := a + [sep] + b;
    FirstIndexAt(a, sep, b);
    var i := FirstIndex(bs, sep);
    assert bs[..i] == a && bs[i + 1..] == b;
  }

  /** The bytes of a serialized tuple are not empty and hold no `&`. */
  lemma SerializedPairBytes(p: (string, string))
    ensures Encode(SerializePair(p)) != []
    ensures Amp !in Encode(SerializePair(p))
  {
    SerializedPairSplit(p);
    PlainBytes(PercentEncode(p.0));
    PlainBytes(PercentEncode(p.1));
  }

  /** The bytes of a serialized list of two or more tuples: the first tuple, `&`, the rest. */
  lemma SerializedBytes(list: Pairs)
    requires |list| > 1
    ensures Encode(Serialize(list)) == Encode(SerializePair(list[0])) + [Amp] + Encode(Serialize(list[1..]))
  {
    EncodeAppend(SerializePair(list[0]), "&");
    EncodeAppend(SerializePair(list[0]) + "&", Serialize(list[1..]));
    assert Encode("&") == [Amp];
  }

  /** Parsing a non-empty first part adds its tuple in front. */
  lemma ParseFirstPart(part: seq<Byte>, parts: seq<seq<Byte>>)
    requires part != []
    ensures ParseParts([part] + parts) == [ParseTuple(part)] + ParseParts(parts)
  {
    assert ([part] + parts)[1..] == parts;
  }

  /** A single serialized tuple parses back to itself. */
  lemma ParseSerializedSingle(p: (string, string))
    ensures Parse(Serialize([p])) == [p]
  {
    var bytes := Encode(SerializePair(p));
    ParseSerializedPair(p);
    SerializedPairBytes(p);
    assert Split(bytes, Amp) == [bytes] + [];
    ParseFirstPart(bytes, []);
  }

  /** A list of two or more tuples parses back to itself when its tail does. */
  lemma ParseSerializedCons(list: Pairs)
    requires |list| > 1 && Parse(Serialize(list[1..])) == list[1..]
    ensures Parse(Serialize(list)) == list
  {
    var head := Encode(SerializePair(list[0]));
    var rest := Encode(Serialize(list[1..]));
    ParseSerializedPair(list[0]);
    SerializedPairBytes(list[0]);
    SerializedBytes(list);
    SplitFirst(head, Amp, rest);
    ParseFirstPart(head, Split(rest, Amp));
  }

  /** The parser inverts the serializer: every list of tuples survives the round trip. */
  lemma {:induction false} ParseSerialize(list: Pairs)
    ensures Parse(Serialize(list)) == list
  {
    if list == [] {
      assert Encode("") == [];
      assert Split([], Amp) == [[]];
      assert ParseParts([[]]) == [] + ParseParts([]);
    } else if |list| == 1 {
      assert list == [list[0]];
      ParseSerializedSingle(list[0]);
    } else {
      ParseSerialize(list[1..]);
      ParseSerializedCons(list);
    }
  }
}
