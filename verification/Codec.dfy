/** The bit format of the packer: how each field kind is written and read back. */
module Codec {
  import opened Bits
  import opened Sequences

  /** The settings that both directions consult. */
  datatype Config = Config(bigEndian: bool, useMetadata: bool, byReference: bool)

  /** An IEEE 754 double as the four fields that SystemC exposes. */
  datatype Real = Real(negative: bool, exponent: nat, mantissa1: nat, mantissa0: nat) {
    predicate Valid() {
      exponent < 0x800 && mantissa1 < 0x1_0000_0000 && mantissa0 < 0x10_0000
    }
  }

  datatype Kind =
    | KBool
    | KInt(width: nat, signed: bool)
    | KReal
    | KBits(length: nat)
    | KString
    | KVector(element: Kind)

  datatype Value =
    | VBool(b: bool)
    | VInt(i: int)
    | VReal(r: Real)
    | VBits(bits: Bits)
    | VString(chars: seq<Byte>)
    | VVector(elements: seq<Value>)

  /** What a reader leaves: the value and the bits it did not consume. */
  datatype Parsed<+T> = Fail | Ok(value: T, rest: Bits)

  const SIZE_KIND: Kind := KInt(32, true)

  predicate HasKind(v: Value, k: Kind)
    decreases k
  {
    match k
    case KBool => v.VBool?
    case KInt(w, signed) =>
      v.VInt? && 1 <= w <= 64 &&
      if signed then -(Pow2(w - 1) as int) <= v.i < Pow2(w - 1) else 0 <= v.i < Pow2(w)
    case KReal => v.VReal? && v.r.Valid()
    case KBits(n) => v.VBits? && |v.bits| == n > 0
    case KString => v.VString?
    case KVector(e) =>
      v.VVector? && |v.elements| < 0x8000_0000 &&
      forall x :: x in v.elements ==> HasKind(x, e)
  }

  /** Field kinds the packer supports: integers of 1 to 64 bits and non-empty bit vectors. */
  predicate WellFormed(k: Kind)
  {
    match k
    case KInt(w, _) => 1 <= w <= 64
    case KBits(n) => n > 0
    case KVector(e) => WellFormed(e)
    case _ => true
  }

  // ----- integers and reals

  /** The two's complement pattern of `i` in `w` bits. */
  function Pattern(i: int, w: nat): (p: nat)
    ensures p < Pow2(w)
  {
    i % Pow2(w)
  }

  lemma PatternOfNat(v: nat, w: nat)
    requires v < Pow2(w)
    ensures Pattern(v, w) == v
  {
    ModShift(v, Pow2(w));
  }

  function FromPattern(p: nat, w: nat, signed: bool): int
  {
    if signed && w > 0 && p >= Pow2(w - 1) then p - Pow2(w) else p
  }

  lemma PatternRoundTrip(i: int, w: nat, signed: bool)
    requires HasKind(VInt(i), KInt(w, signed))
    ensures FromPattern(Pattern(i, w), w, signed) == i
  {
    var half: int, m: int := Pow2(w - 1), Pow2(w);
    assert m == 2 * half;
    ModShift(i, m);
  }

  lemma ModShift(i: int, m: int)
    requires 0 < m && -m <= i < m
    ensures i % m == if i < 0 then i + m else i
  {
    if i < 0 {
      assert i == m * (-1) + (i + m);
    }
  }

  function RealToBits(r: Real): (v: nat)
    requires r.Valid()
    ensures v < 0x1_0000_0000_0000_0000
  {
    (if r.negative then 0x8000_0000_0000_0000 else 0)
    + r.exponent * 0x10_0000_0000_0000
    + r.mantissa1 * 0x10_0000
    + r.mantissa0
  }

  function BitsToReal(v: nat): (r: Real)
    requires v < 0x1_0000_0000_0000_0000
    ensures r.Valid()
  {
    Real(v / 0x8000_0000_0000_0000 == 1,
         v / 0x10_0000_0000_0000 % 0x800,
         v / 0x10_0000 % 0x1_0000_0000,
         v % 0x10_0000)
  }

  /** The two conversions are inverse bijections between doubles and 64-bit words. */
  lemma RealBitsBijection(r: Real, v: nat)
    requires r.Valid() && v < 0x1_0000_0000_0000_0000
    ensures BitsToReal(RealToBits(r)) == r
    ensures RealToBits(BitsToReal(v)) == v
  {
    var w := RealToBits(r);
    assert w / 0x10_0000 == (if r.negative then 0x800_0000_0000 else 0) + r.exponent * 0x1_0000_0000 + r.mantissa1;
    assert w / 0x10_0000_0000_0000 == (if r.negative then 0x800 else 0) + r.exponent;
    assert v / 0x10_0000_0000_0000 == v / 0x10_0000 / 0x1_0000_0000;
    assert v / 0x8000_0000_0000_0000 == v / 0x10_0000_0000_0000 / 0x800;
  }

  // ----- strings

  function EncodeChar(cfg: Config, c: Byte): (b: Bits)
    ensures |b| == 8
  {
    Ordered(cfg.bigEndian, ToBits(c, 8))
  }

  function DecodeChar(cfg: Config, w: Bits): (c: Byte)
    requires |w| == 8
  {
    Pow2Values();
    FromBits(Ordered(cfg.bigEndian, w))
  }

  lemma CharRoundTrip(cfg: Config, c: Byte)
    ensures DecodeChar(cfg, EncodeChar(cfg, c)) == c
    ensures FromBits(EncodeChar(cfg, c)) == 0 <==> c == 0
  {
    Pow2Values();
    OrderedTwice(cfg.bigEndian, ToBits(c, 8));
    OrderedZero(cfg.bigEndian, ToBits(c, 8));
    FromBitsToBits(c, 8);
  }

  function EncodeChars(cfg: Config, s: seq<Byte>): Bits
  {
    if s == [] then [] else EncodeChar(cfg, s[0]) + EncodeChars(cfg, s[1..])
  }

  lemma {:induction false} EncodeLastChar(cfg: Config, s: seq<Byte>, c: Byte)
    ensures EncodeChars(cfg, s + [c]) == EncodeChars(cfg, s) + EncodeChar(cfg, c)
  {
    hide EncodeChar;
    if s == [] {
      assert s + [c] == [c] && [c][1..] == [];
    } else {
      EncodeLastChar(cfg, s[1..], c);
      assert (s + [c])[1..] == s[1..] + [c];
    }
  }

  function EncodeString(cfg: Config, s: seq<Byte>): Bits
  {
    EncodeChars(cfg, s) + if cfg.useMetadata then EncodeChar(cfg, 0) else []
  }

  /** The read loop of a string: up to the first zero byte when `limit` is -1, else `limit` bytes;
      in both cases no further than the available bits. */
  function DecodeChars(cfg: Config, limit: int, i: nat, w: Bits): (r: (seq<Byte>, Bits))
    decreases |w|
  {
    if CharsEnd(limit, i, w) then ([], w)
    else
      var (s, rest) := DecodeChars(cfg, limit, i + 1, w[8..]);
      ([DecodeChar(cfg, w[..8])] + s, rest)
  }

  predicate CharsEnd(limit: int, i: nat, w: Bits) {
    |w| < 8 || (limit == -1 && FromBits(w[..8]) == 0) || (limit != -1 && i >= limit)
  }

  lemma DecodeCharsStep(cfg: Config, limit: int, i: nat, w: Bits, s: seq<Byte>)
    ensures var r := DecodeChars(cfg, limit, i, w);
            if CharsEnd(limit, i, w) then s + r.0 == s && r.1 == w
            else
              var next := DecodeChars(cfg, limit, i + 1, w[8..]);
              s + r.0 == (s + [DecodeChar(cfg, w[..8])]) + next.0 && r.1 == next.1
  {
    if !CharsEnd(limit, i, w) {
      ConcatAssoc(s, [DecodeChar(cfg, w[..8])], DecodeChars(cfg, limit, i + 1, w[8..]).0);
    }
  }

  function DecodeString(cfg: Config, limit: int, w: Bits): (seq<Byte>, Bits)
  {
    var (s, rest) := DecodeChars(cfg, limit, 0, w);
    (s, if cfg.useMetadata && |rest| >= 8 then rest[8..] else rest)
  }

  predicate NulFree(s: seq<Byte>) {
    0 !in s
  }

  /** The part of a string before its first NUL. */
  function BeforeNul(s: seq<Byte>): (r: seq<Byte>)
    ensures r == s <==> NulFree(s)
    ensures |r| <= |s|
  {
    if s == [] || s[0] == 0 then [] else [s[0]] + BeforeNul(s[1..])
  }

  lemma {:induction false} DecodeCharsToNul(cfg: Config, s: seq<Byte>, i: nat, tail: Bits)
    requires |tail| >= 8 && FromBits(tail[..8]) == 0
    ensures DecodeChars(cfg, -1, i, EncodeChars(cfg, s) + tail).0 == BeforeNul(s)
    ensures NulFree(s) ==> DecodeChars(cfg, -1, i, EncodeChars(cfg, s) + tail).1 == tail
  {
    var w := EncodeChars(cfg, s) + tail;
    if s == [] {
      assert w == tail;
    } else {
      assert w == EncodeChar(cfg, s[0]) + (EncodeChars(cfg, s[1..]) + tail);
      assert w[..8] == EncodeChar(cfg, s[0]);
      assert w[8..] == EncodeChars(cfg, s[1..]) + tail;
      CharRoundTrip(cfg, s[0]);
      DecodeCharsToNul(cfg, s[1..], i + 1, tail);
    }
  }

  /** With metadata, reading a string back gives exactly what precedes its first NUL;
      a NUL-free string comes back whole and its terminator is consumed. */
  lemma StringRoundTrip(cfg: Config, s: seq<Byte>, rest: Bits)
    requires cfg.useMetadata
    ensures DecodeString(cfg, -1, EncodeString(cfg, s) + rest).0 == BeforeNul(s)
    ensures DecodeString(cfg, -1, EncodeString(cfg, s) + rest) == (s, rest) <==> NulFree(s)
  {
    var tail := EncodeChar(cfg, 0) + rest;
    Terminator(cfg, rest);
    assert EncodeString(cfg, s) + rest == EncodeChars(cfg, s) + tail;
    DecodeCharsToNul(cfg, s, 0, tail);
    if NulFree(s) {
      assert DecodeChars(cfg, -1, 0, EncodeChars(cfg, s) + tail) == (s, tail);
    }
  }

  lemma Terminator(cfg: Config, rest: Bits)
    ensures var tail := EncodeChar(cfg, 0) + rest; FromBits(tail[..8]) == 0 && tail[8..] == rest
  {
    CharRoundTrip(cfg, 0);
    assert (EncodeChar(cfg, 0) + rest)[..8] == EncodeChar(cfg, 0);
  }

  lemma {:induction false} DecodeCharsCounted(cfg: Config, s: seq<Byte>, i: nat, tail: Bits)
    ensures DecodeChars(cfg, i + |s|, i, EncodeChars(cfg, s) + tail) == (s, tail)
  {
    var w := EncodeChars(cfg, s) + tail;
    if s == [] {
      assert w == tail;
    } else {
      assert w == EncodeChar(cfg, s[0]) + (EncodeChars(cfg, s[1..]) + tail);
      assert w[..8] == EncodeChar(cfg, s[0]);
      assert w[8..] == EncodeChars(cfg, s[1..]) + tail;
      CharRoundTrip(cfg, s[0]);
      DecodeCharsCounted(cfg, s[1..], i + 1, tail);
      assert s == [s[0]] + s[1..];
    }
  }

  /** Reading with an explicit count recovers every string, NULs included, in both modes. */
  lemma CountedStringRoundTrip(cfg: Config, s: seq<Byte>, rest: Bits)
    ensures DecodeString(cfg, |s|, EncodeString(cfg, s) + rest) == (s, rest)
  {
    var tail := (if cfg.useMetadata then EncodeChar(cfg, 0) else []) + rest;
    assert EncodeString(cfg, s) + rest == EncodeChars(cfg, s) + tail;
    DecodeCharsCounted(cfg, s, 0, tail);
    assert if cfg.useMetadata then tail[8..] == rest else tail == rest;
  }

  /** Where an unmarked string stops: too few bits for a byte, or a zero byte. */
  predicate Stops(rest: Bits) {
    |rest| < 8 || FromBits(rest[..8]) == 0
  }

  lemma {:induction false} UnmarkedChars(cfg: Config, s: seq<Byte>, i: nat, rest: Bits)
    ensures DecodeChars(cfg, -1, i, EncodeChars(cfg, s) + rest) == (s, rest) <==> NulFree(s) && Stops(rest)
    ensures DecodeChars(cfg, -1, i, EncodeChars(cfg, s) + rest).0 == s ==> NulFree(s) && Stops(rest)
    decreases |s|
  {
    var w := EncodeChars(cfg, s) + rest;
    if s == [] {
      assert w == rest;
    } else {
      var tail := EncodeChars(cfg, s[1..]) + rest;
      assert w == EncodeChar(cfg, s[0]) + tail;
      assert w[..8] == EncodeChar(cfg, s[0]) && w[8..] == tail;
      CharRoundTrip(cfg, s[0]);
      UnmarkedChars(cfg, s[1..], i + 1, rest);
      assert s == [s[0]] + s[1..];
    }
  }

  /** Without metadata a string comes back just when it has no NUL and what follows starts with a zero byte or is
      shorter than a byte. */
  lemma UnmarkedStringExact(cfg: Config, s: seq<Byte>, rest: Bits)
    requires !cfg.useMetadata
    ensures DecodeString(cfg, -1, EncodeString(cfg, s) + rest) == (s, rest) <==> NulFree(s) && Stops(rest)
    ensures DecodeString(cfg, -1, EncodeString(cfg, s) + rest).0 == s ==> NulFree(s) && Stops(rest)
  {
    UnmarkedChars(cfg, s, 0, rest);
    assert EncodeString(cfg, s) == EncodeChars(cfg, s);
  }

  // ----- values

  function EncodeInt(cfg: Config, i: int, w: nat): (b: Bits)
    ensures |b| == w
  {
    Ordered(cfg.bigEndian, ToBits(Pattern(i, w), w))
  }

  /** Bit `j` of a packed integer is its bit of weight 2^j, counted from the other end when big-endian. */
  lemma IntLayout(cfg: Config, i: int, w: nat, j: nat)
    requires j < w
    ensures EncodeInt(cfg, i, w)[j] <==> i / Pow2(if cfg.bigEndian then w - 1 - j else j) % 2 == 1
  {
    var k := if cfg.bigEndian then w - 1 - j else j;
    PatternBit(i, w, k);
    BitAt(Pattern(i, w), w, k);
  }

  /** A packed string is one byte after the other, and with metadata a zero byte. */
  lemma {:induction false} StringLayout(cfg: Config, s: seq<Byte>, k: nat)
    requires k < |s|
    ensures |EncodeString(cfg, s)| == 8 * |s| + if cfg.useMetadata then 8 else 0
    ensures EncodeString(cfg, s)[8 * k..8 * k + 8] == EncodeChar(cfg, s[k])
    ensures cfg.useMetadata ==> FromBits(EncodeString(cfg, s)[8 * |s|..]) == 0
  {
    CharsLayout(cfg, s, k);
    CharRoundTrip(cfg, 0);
    assert EncodeString(cfg, s)[8 * k..8 * k + 8] == EncodeChars(cfg, s)[8 * k..8 * k + 8];
    assert cfg.useMetadata ==> EncodeString(cfg, s)[8 * |s|..] == EncodeChar(cfg, 0);
  }

  lemma {:induction false} CharsLayout(cfg: Config, s: seq<Byte>, k: nat)
    requires k < |s|
    ensures |EncodeChars(cfg, s)| == 8 * |s|
    ensures EncodeChars(cfg, s)[8 * k..8 * k + 8] == EncodeChar(cfg, s[k])
  {
    var first, rest := EncodeChar(cfg, s[0]), EncodeChars(cfg, s[1..]);
    if k > 0 {
      CharsLayout(cfg, s[1..], k - 1);
      assert (first + rest)[8 * k..8 * k + 8] == rest[8 * k - 8..8 * k];
    } else {
      CharsLength(cfg, s[1..]);
    }
  }

  /** Bit `j` of a packed byte is its bit of weight 2^j, counted from the other end when big-endian. */
  lemma CharLayout(cfg: Config, c: Byte, j: nat)
    requires j < 8
    ensures EncodeChar(cfg, c)[if cfg.bigEndian then 7 - j else j] <==> c / Pow2(j) % 2 == 1
  {
    BitAt(c, 8, j);
  }

  lemma {:induction false} CharsLength(cfg: Config, s: seq<Byte>)
    ensures |EncodeChars(cfg, s)| == 8 * |s|
  {
    if s != [] {
      CharsLength(cfg, s[1..]);
    }
  }

  function EncodeValue(cfg: Config, k: Kind, v: Value): Bits
    requires HasKind(v, k)
    decreases k, 0
  {
    match k
    case KBool => [v.b]
    case KInt(w, _) => EncodeInt(cfg, v.i, w)
    case KReal => EncodeInt(cfg, RealToBits(v.r), 64)
    case KBits(_) => v.bits
    case KString => EncodeString(cfg, v.chars)
    case KVector(e) =>
      EncodeInt(cfg, |v.elements|, 32) + EncodeElements(cfg, e, v.elements)
  }

  function EncodeElements(cfg: Config, e: Kind, vs: seq<Value>): Bits
    requires forall x :: x in vs ==> HasKind(x, e)
    decreases e, |vs| + 1
  {
    if vs == [] then [] else EncodeValue(cfg, e, vs[0]) + EncodeElements(cfg, e, vs[1..])
  }

  /** The fields of a double from the low end up: mantissa0 in the bits from 0, mantissa1 from 20, the exponent from 52,
      the sign in bit 63; counted from the other end when big-endian. */
  lemma RealLayout(cfg: Config, r: Real, j: nat)
    requires r.Valid() && j < 64
    ensures |EncodeValue(cfg, KReal, VReal(r))| == 64
    ensures EncodeValue(cfg, KReal, VReal(r))[if cfg.bigEndian then 63 - j else j] <==>
            if j < 20 then r.mantissa0 / Pow2(j) % 2 == 1
            else if j < 52 then r.mantissa1 / Pow2(j - 20) % 2 == 1
            else if j < 63 then r.exponent / Pow2(j - 52) % 2 == 1
            else r.negative
  {
    hide Pow2;
    RealFields(r);
    PatternOfNat(RealToBits(r), 64) by { Pow2Values(); }
    if j < 20 {
      BitAt(r.mantissa0, 20, j);
    } else if j < 52 {
      BitAt(r.mantissa1, 32, j - 20);
    } else if j < 63 {
      BitAt(r.exponent, 11, j - 52);
    }
  }

  lemma RealFields(r: Real)
    requires r.Valid()
    ensures ToBits(RealToBits(r), 64)
         == ToBits(r.mantissa0, 20) + (ToBits(r.mantissa1, 32) + (ToBits(r.exponent, 11) + [r.negative]))
  {
    hide ToBits;
    Pow2Values();
    assert Pow2(11) == 0x800 && Pow2(20) == 0x10_0000;
    var sign := if r.negative then 1 else 0;
    var upper := r.exponent + Pow2(11) * sign;
    ToBitsJoined(r.exponent, 11, sign, 1);
    ToBitsJoined(r.mantissa1, 32, upper, 12);
    ToBitsJoined(r.mantissa0, 20, r.mantissa1 + Pow2(32) * upper, 44);
    OneBit(r.negative);
  }

  lemma OneBit(b: bool)
    ensures ToBits(if b then 1 else 0, 1) == [b]
  {
  }

  /** A boolean is one bit, and a bit vector is packed as it is, in either byte order. */
  lemma PlainLayout(cfg: Config, b: bool, bits: Bits)
    requires bits != []
    ensures EncodeValue(cfg, KBool, VBool(b)) == [b]
    ensures EncodeValue(cfg, KBits(|bits|), VBits(bits)) == bits
  {
  }

  lemma {:induction false} ElementsConcat(cfg: Config, e: Kind, a: seq<Value>, b: seq<Value>)
    requires (forall x :: x in a ==> HasKind(x, e)) && forall x :: x in b ==> HasKind(x, e)
    ensures forall x :: x in a + b ==> HasKind(x, e)
    ensures EncodeElements(cfg, e, a + b) == EncodeElements(cfg, e, a) + EncodeElements(cfg, e, b)
    decreases |a|
  {
    hide EncodeValue, HasKind;
    if a == [] {
      assert a + b == b;
    } else {
      ElementsConcat(cfg, e, a[1..], b);
      assert (a + b)[0] == a[0] && (a + b)[1..] == a[1..] + b;
    }
  }

  /** A vector is its size as a 32-bit integer and then its elements. */
  lemma VectorLayout(cfg: Config, e: Kind, vs: seq<Value>, j: nat)
    requires HasKind(VVector(vs), KVector(e)) && j < 32
    ensures |EncodeValue(cfg, KVector(e), VVector(vs))| >= 32
    ensures EncodeValue(cfg, KVector(e), VVector(vs))[if cfg.bigEndian then 31 - j else j] <==> |vs| / Pow2(j) % 2 == 1
    ensures EncodeValue(cfg, KVector(e), VVector(vs))[32..] == EncodeElements(cfg, e, vs)
  {
    hide EncodeElements, Pow2, ToBits;
    IntLayout(cfg, |vs|, 32, if cfg.bigEndian then 31 - j else j);
    PatternOfNat(|vs|, 32) by { Pow2Values(); }
  }

  /** Each element is packed behind those before it and in front of those after it. */
  lemma ElementsLayout(cfg: Config, e: Kind, vs: seq<Value>, i: nat)
    requires i < |vs| && forall x :: x in vs ==> HasKind(x, e)
    ensures EncodeElements(cfg, e, vs)
         == EncodeElements(cfg, e, vs[..i]) + (EncodeValue(cfg, e, vs[i]) + EncodeElements(cfg, e, vs[i + 1..]))
  {
    hide EncodeElements, EncodeValue, HasKind;
    assert vs == vs[..i] + vs[i..];
    ElementsConcat(cfg, e, vs[..i], vs[i..]);
    assert vs[i..][0] == vs[i] && vs[i..][1..] == vs[i + 1..];
    EncodeFirst(cfg, e, vs[i..], []);
    assert EncodeElements(cfg, e, vs[i..]) + [] == EncodeElements(cfg, e, vs[i..]);
    assert EncodeElements(cfg, e, vs[i + 1..]) + [] == EncodeElements(cfg, e, vs[i + 1..]);
  }

  function DecodeInt(cfg: Config, w: nat, signed: bool, bits: Bits): Parsed<int>
  {
    if |bits| < w then Fail
    else Ok(FromPattern(FromBits(Ordered(cfg.bigEndian, bits[..w])), w, signed), bits[w..])
  }

  function DecodeValue(cfg: Config, k: Kind, w: Bits): Parsed<Value>
    decreases k, 0
  {
    match k
    case KBool => if |w| < 1 then Fail else Ok(VBool(w[0]), w[1..])
    case KInt(width, signed) =>
      (match DecodeInt(cfg, width, signed, w)
       case Fail => Fail
       case Ok(i, rest) => Ok(VInt(i), rest))
    case KReal =>
      if |w| < 64 then Fail
      else
        Pow2Values();
        Ok(VReal(BitsToReal(FromBits(Ordered(cfg.bigEndian, w[..64])))), w[64..])
    case KBits(n) => if |w| < n then Fail else Ok(VBits(w[..n]), w[n..])
    case KString => var (s, rest) := DecodeString(cfg, -1, w); Ok(VString(s), rest)
    case KVector(e) =>
      match DecodeInt(cfg, 32, true, w)
      case Fail => Fail
      case Ok(n, rest) =>
        match DecodeElements(cfg, e, if n < 0 then 0 else n, rest)
        case Fail => Fail
        case Ok(vs, rest') => Ok(VVector(vs), rest')
  }

  function DecodeElements(cfg: Config, e: Kind, n: nat, w: Bits): Parsed<seq<Value>>
    decreases e, n + 1
  {
    if n == 0 then Ok([], w)
    else
      match DecodeValue(cfg, e, w)
      case Fail => Fail
      case Ok(v, rest) =>
        match DecodeElements(cfg, e, n - 1, rest)
        case Fail => Fail
        case Ok(vs, rest') => Ok([v] + vs, rest')
  }

  /** With metadata every string inside the value has to be NUL-free. */
  predicate Terminated(k: Kind, v: Value)
    requires HasKind(v, k)
    decreases k
  {
    match k
    case KString => NulFree(v.chars)
    case KVector(e) => forall x :: x in v.elements ==> Terminated(e, x)
    case _ => true
  }

  predicate StringFree(k: Kind)
  {
    match k
    case KString => false
    case KVector(e) => StringFree(e)
    case _ => true
  }

  /** What the format asks of a value: terminated strings with metadata, no strings without. */
  predicate Packable(cfg: Config, k: Kind, v: Value)
    requires HasKind(v, k)
  {
    if cfg.useMetadata then Terminated(k, v) else StringFree(k)
  }

  lemma IntRoundTrip(cfg: Config, i: int, w: nat, signed: bool, rest: Bits)
    requires HasKind(VInt(i), KInt(w, signed))
    ensures DecodeInt(cfg, w, signed, EncodeInt(cfg, i, w) + rest) == Ok(i, rest)
  {
    var b := ToBits(Pattern(i, w), w);
    var e := EncodeInt(cfg, i, w) + rest;
    assert e[..w] == Ordered(cfg.bigEndian, b) && e[w..] == rest;
    OrderedTwice(cfg.bigEndian, b);
    FromBitsToBits(Pattern(i, w), w);
    PatternRoundTrip(i, w, signed);
  }

  lemma RealRoundTrip(cfg: Config, r: Real, rest: Bits)
    requires r.Valid()
    ensures DecodeValue(cfg, KReal, EncodeValue(cfg, KReal, VReal(r)) + rest) == Ok(VReal(r), rest)
  {
    Pow2Values();
    RealBitsBijection(r, 0);
    var v := RealToBits(r);
    PatternOfNat(v, 64);
    var e := EncodeInt(cfg, v, 64) + rest;
    assert e[..64] == EncodeInt(cfg, v, 64) && e[64..] == rest;
    OrderedTwice(cfg.bigEndian, ToBits(v, 64));
    FromBitsToBits(v, 64);
  }

  /** Reading back what was written gives the same value and leaves exactly the bits that follow,
      for every kind, both bit orders and whatever comes next in the buffer. */
  lemma {:induction false} ValueRoundTrip(cfg: Config, k: Kind, v: Value, rest: Bits)
    requires HasKind(v, k) && Packable(cfg, k, v)
    ensures DecodeValue(cfg, k, EncodeValue(cfg, k, v) + rest) == Ok(v, rest)
    decreases k, 0
  {
    match k
    case KBool =>
    case KInt(w, signed) => IntRoundTrip(cfg, v.i, w, signed, rest);
    case KReal => RealRoundTrip(cfg, v.r, rest);
    case KBits(n) =>
      var e := v.bits + rest;
      assert e[..n] == v.bits && e[n..] == rest;
    case KString => StringRoundTrip(cfg, v.chars, rest);
    case KVector(e) =>
      VectorHeader(cfg, e, v, rest);
      ElementsRoundTrip(cfg, e, v.elements, rest);
  }

  /** Reading a vector back starts by recovering its size. */
  lemma VectorHeader(cfg: Config, e: Kind, v: Value, rest: Bits)
    requires HasKind(v, KVector(e))
    ensures var r := DecodeElements(cfg, e, |v.elements|, EncodeElements(cfg, e, v.elements) + rest);
            DecodeValue(cfg, KVector(e), EncodeValue(cfg, KVector(e), v) + rest)
            == if r.Ok? then Ok(VVector(r.value), r.rest) else Fail
  {
    hide EncodeInt, DecodeInt, DecodeString, EncodeString;
    var n, tail := |v.elements|, EncodeElements(cfg, e, v.elements) + rest;
    SizeHasKind(n);
    IntRoundTrip(cfg, n, 32, true, tail);
    assert EncodeValue(cfg, KVector(e), v) + rest == EncodeInt(cfg, n, 32) + tail;
  }

  lemma SizeHasKind(n: nat)
    requires n < 0x8000_0000
    ensures HasKind(VInt(n), SIZE_KIND)
  {
    Pow2Values();
  }

  lemma {:induction false} ElementsRoundTrip(cfg: Config, e: Kind, vs: seq<Value>, rest: Bits)
    requires forall x :: x in vs ==> HasKind(x, e) && Packable(cfg, e, x)
    ensures DecodeElements(cfg, e, |vs|, EncodeElements(cfg, e, vs) + rest) == Ok(vs, rest)
    decreases e, |vs| + 1
  {
    hide EncodeValue, DecodeValue, Packable;
    if vs == [] {
      assert EncodeElements(cfg, e, vs) + rest == rest;
    } else {
      var tail := EncodeElements(cfg, e, vs[1..]) + rest;
      EncodeFirst(cfg, e, vs, rest);
      ValueRoundTrip(cfg, e, vs[0], tail);
      ElementsRoundTrip(cfg, e, vs[1..], rest);
      assert vs == [vs[0]] + vs[1..];
    }
  }

  lemma EncodeFirst(cfg: Config, e: Kind, vs: seq<Value>, rest: Bits)
    requires vs != [] && forall x :: x in vs ==> HasKind(x, e)
    ensures HasKind(vs[0], e) && forall x :: x in vs[1..] ==> HasKind(x, e)
    ensures EncodeElements(cfg, e, vs) + rest
         == EncodeValue(cfg, e, vs[0]) + (EncodeElements(cfg, e, vs[1..]) + rest)
  {
  }

  lemma FirstDecoded(cfg: Config, e: Kind, n: nat, w: Bits)
    requires n > 0
    ensures var r := DecodeElements(cfg, e, n, w);
            r.Ok? ==>
              var first := DecodeValue(cfg, e, w);
              && first.Ok? && r.value != [] && r.value[0] == first.value
              && r.value == [first.value] + r.value[1..]
              && DecodeElements(cfg, e, n - 1, first.rest) == Ok(r.value[1..], r.rest)
  {
  }

  lemma {:induction false} EncodeLast(cfg: Config, e: Kind, vs: seq<Value>, v: Value)
    requires HasKind(v, e) && forall x :: x in vs ==> HasKind(x, e)
    ensures EncodeElements(cfg, e, vs + [v]) == EncodeElements(cfg, e, vs) + EncodeValue(cfg, e, v)
  {
    hide EncodeValue, HasKind;
    if vs == [] {
      assert vs + [v] == [v] && [v][1..] == [];
    } else {
      EncodeLast(cfg, e, vs[1..], v);
      assert (vs + [v])[1..] == vs[1..] + [v];
    }
  }

  /** Whether a value followed by `rest` can be told from it: strings without NUL, and without metadata followed by
      something at which reading them stops. */
  predicate Recoverable(cfg: Config, k: Kind, v: Value, rest: Bits)
    requires HasKind(v, k)
    decreases k, 0
  {
    match k
    case KString => NulFree(v.chars) && (cfg.useMetadata || Stops(rest))
    case KVector(e) => AllRecoverable(cfg, e, v.elements, rest)
    case _ => true
  }

  predicate AllRecoverable(cfg: Config, e: Kind, vs: seq<Value>, rest: Bits)
    requires forall x :: x in vs ==> HasKind(x, e)
    decreases e, |vs| + 1
  {
    vs == [] ||
    (Recoverable(cfg, e, vs[0], EncodeElements(cfg, e, vs[1..]) + rest) && AllRecoverable(cfg, e, vs[1..], rest))
  }

  /** Reading back gives the value and leaves what follows just when the value is recoverable; if it is not, some
      other value is read. This holds for every kind, in both modes and whatever follows. */
  lemma {:induction false} ValueReadsBack(cfg: Config, k: Kind, v: Value, rest: Bits)
    requires HasKind(v, k)
    ensures var r := DecodeValue(cfg, k, EncodeValue(cfg, k, v) + rest);
            && (r == Ok(v, rest) <==> Recoverable(cfg, k, v, rest))
            && (r.Ok? && r.value == v ==> Recoverable(cfg, k, v, rest))
    decreases k, 0
  {
    match k
    case KString =>
      if cfg.useMetadata {
        StringRoundTrip(cfg, v.chars, rest);
      } else {
        UnmarkedStringExact(cfg, v.chars, rest);
      }
    case KVector(e) =>
      VectorHeader(cfg, e, v, rest);
      ElementsReadBack(cfg, e, v.elements, rest);
    case _ => ValueRoundTrip(cfg.(useMetadata := true), k, v, rest);
  }

  lemma {:induction false} ElementsReadBack(cfg: Config, e: Kind, vs: seq<Value>, rest: Bits)
    requires forall x :: x in vs ==> HasKind(x, e)
    ensures var r := DecodeElements(cfg, e, |vs|, EncodeElements(cfg, e, vs) + rest);
            && (r == Ok(vs, rest) <==> AllRecoverable(cfg, e, vs, rest))
            && (r.Ok? && r.value == vs ==> AllRecoverable(cfg, e, vs, rest))
    decreases e, |vs| + 1
  {
    hide EncodeValue, DecodeValue, Recoverable, HasKind;
    if vs == [] {
      assert EncodeElements(cfg, e, vs) + rest == rest;
    } else {
      var tail := EncodeElements(cfg, e, vs[1..]) + rest;
      EncodeFirst(cfg, e, vs, rest);
      ValueReadsBack(cfg, e, vs[0], tail);
      ElementsReadBack(cfg, e, vs[1..], rest);
      FirstDecoded(cfg, e, |vs|, EncodeElements(cfg, e, vs) + rest);
      assert vs == [vs[0]] + vs[1..];
    }
  }

  lemma {:induction false} MarkedRecoverable(cfg: Config, k: Kind, v: Value, rest: Bits)
    requires cfg.useMetadata && HasKind(v, k)
    ensures Recoverable(cfg, k, v, rest) <==> Terminated(k, v)
    decreases k, 0
  {
    if k.KVector? {
      AllMarkedRecoverable(cfg, k.element, v.elements, rest);
    }
  }

  lemma {:induction false} AllMarkedRecoverable(cfg: Config, e: Kind, vs: seq<Value>, rest: Bits)
    requires cfg.useMetadata && forall x :: x in vs ==> HasKind(x, e)
    ensures AllRecoverable(cfg, e, vs, rest) <==> forall x :: x in vs ==> Terminated(e, x)
    decreases e, |vs| + 1
  {
    hide HasKind, Recoverable, Terminated;
    if vs != [] {
      MarkedRecoverable(cfg, e, vs[0], EncodeElements(cfg, e, vs[1..]) + rest);
      AllMarkedRecoverable(cfg, e, vs[1..], rest);
      assert vs == [vs[0]] + vs[1..];
    }
  }

  /** With metadata, a value round-trips exactly when each string inside it is NUL-free; otherwise it comes back
      changed. */
  lemma ValueRoundTripExact(cfg: Config, k: Kind, v: Value, rest: Bits)
    requires cfg.useMetadata && HasKind(v, k)
    ensures var r := DecodeValue(cfg, k, EncodeValue(cfg, k, v) + rest);
            && (r == Ok(v, rest) <==> Terminated(k, v))
            && (!Terminated(k, v) && r.Ok? ==> r.value != v)
  {
    hide EncodeValue, DecodeValue, Recoverable, Terminated, HasKind;
    MarkedRecoverable(cfg, k, v, rest);
    ValueReadsBack(cfg, k, v, rest);
  }

  /** Without metadata a string runs into whatever is packed behind it. */
  lemma UnmarkedStringOverruns(cfg: Config, a: Byte, b: Byte)
    requires !cfg.useMetadata && a != 0 && b != 0
    ensures DecodeString(cfg, -1, EncodeString(cfg, [a]) + EncodeString(cfg, [b])) == ([a, b], [])
  {
    hide EncodeChar, DecodeChar, FromBits;
    var x, y := EncodeChar(cfg, a), EncodeChar(cfg, b);
    CharRoundTrip(cfg, a);
    CharRoundTrip(cfg, b);
    assert EncodeChars(cfg, [a]) == x + EncodeChars(cfg, []) == x;
    assert EncodeChars(cfg, [b]) == y + EncodeChars(cfg, []) == y;
    assert EncodeString(cfg, [a]) == x && EncodeString(cfg, [b]) == y;
    assert (x + y)[..8] == x && (x + y)[8..] == y && y[..8] == y && y[8..] == [];
    assert DecodeChars(cfg, -1, 1, y).0 == [b] + DecodeChars(cfg, -1, 2, []).0 == [b];
    assert DecodeChars(cfg, -1, 0, x + y).0 == [a] + [b] == [a, b];
    assert DecodeChars(cfg, -1, 0, x + y).1 == [];
  }

  // ----- how much is read

  lemma {:induction false} CharsShrink(cfg: Config, limit: int, i: nat, w: Bits)
    ensures |DecodeChars(cfg, limit, i, w).1| <= |w|
    decreases |w|
  {
    if !CharsEnd(limit, i, w) {
      CharsShrink(cfg, limit, i + 1, w[8..]);
    }
  }

  /** No reader leaves more bits than it was given. */
  lemma {:induction false} ValueShrinks(cfg: Config, k: Kind, w: Bits)
    ensures var r := DecodeValue(cfg, k, w); r.Ok? ==> |r.rest| <= |w|
    decreases k, 0
  {
    match k
    case KString => CharsShrink(cfg, -1, 0, w);
    case KVector(e) =>
      var size := DecodeInt(cfg, 32, true, w);
      if size.Ok? {
        ElementsShrink(cfg, e, if size.value < 0 then 0 else size.value, size.rest);
      }
    case _ =>
  }

  lemma {:induction false} ElementsShrink(cfg: Config, e: Kind, n: nat, w: Bits)
    ensures var r := DecodeElements(cfg, e, n, w); r.Ok? ==> |r.rest| <= |w|
    decreases e, n + 1
  {
    if n > 0 {
      ValueShrinks(cfg, e, w);
      var r := DecodeValue(cfg, e, w);
      if r.Ok? {
        ElementsShrink(cfg, e, n - 1, r.rest);
      }
    }
  }

  const FULL_BYTE: Bits := [true, true, true, true, true, true, true, true]

  /** Every reader of a supported kind takes something from a byte of ones, or fails. */
  lemma FullByteRead(cfg: Config, k: Kind)
    requires WellFormed(k)
    ensures var r := DecodeValue(cfg, k, FULL_BYTE); r.Ok? ==> |r.rest| < 8
  {
    match k
    case KString =>
      FromBitsZero(FULL_BYTE);
      assert FULL_BYTE[..8] == FULL_BYTE && FULL_BYTE[0];
      assert !CharsEnd(-1, 0, FULL_BYTE);
      CharsShrink(cfg, -1, 1, FULL_BYTE[8..]);
    case _ =>
  }
}
