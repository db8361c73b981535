/** Bit vectors, least significant bit first, as SystemC indexes them. */
module Bits {
  import opened Sequences

  type Bits = seq<bool>

  type Byte = n: nat | n < 256

  function Pow2(n: nat): (p: nat)
    ensures p > 0
  {
    if n == 0 then 1 else 2 * Pow2(n - 1)
  }

  /** The low `n` bits of `v`. */
  function ToBits(v: nat, n: nat): (b: Bits)
    ensures |b| == n
  {
    if n == 0 then [] else [v % 2 == 1] + ToBits(v / 2, n - 1)
  }

  function FromBits(b: Bits): (v: nat)
    ensures v < Pow2(|b|)
  {
    if b == [] then 0 else (if b[0] then 1 else 0) + 2 * FromBits(b[1..])
  }

  lemma {:induction false} ToBitsFromBits(b: Bits)
    ensures ToBits(FromBits(b), |b|) == b
  {
    if b != [] {
      ToBitsFromBits(b[1..]);
    }
  }

  lemma {:induction false} FromBitsToBits(v: nat, n: nat)
    requires v < Pow2(n)
    ensures FromBits(ToBits(v, n)) == v
  {
    if n > 0 {
      FromBitsToBits(v / 2, n - 1);
      assert ToBits(v, n)[1..] == ToBits(v / 2, n - 1);
    }
  }

  /** Bit `j` has the weight 2^j. */
  lemma {:induction false} BitAt(v: nat, n: nat, j: nat)
    requires j < n
    ensures ToBits(v, n)[j] <==> v / Pow2(j) % 2 == 1
  {
    if j > 0 {
      BitAt(v / 2, n - 1, j - 1);
      DivTwice(v, Pow2(j - 1));
    }
  }

  lemma DivTwice(v: int, p: nat)
    requires p > 0
    ensures v / (2 * p) == v / 2 / p
  {
    var q, r := v / 2 / p, v / 2 % p;
    assert v / 2 == q * p + r;
    assert v == q * (2 * p) + (2 * r + v % 2);
    ModUnique(v, 2 * p, q, 2 * r + v % 2);
  }

  /** A narrower view of the same number is a prefix. */
  lemma {:induction false} ToBitsPrefix(v: nat, m: nat, n: nat)
    requires n <= m
    ensures ToBits(v, m)[..n] == ToBits(v, n)
  {
    if n > 0 {
      ToBitsPrefix(v / 2, m - 1, n - 1);
    }
  }

  /** The bits of a number put together from a low part of `m` bits and a high part lie one after the other. */
  lemma {:induction false} ToBitsJoined(low: nat, m: nat, high: nat, n: nat)
    requires low < Pow2(m)
    ensures ToBits(low + Pow2(m) * high, m + n) == ToBits(low, m) + ToBits(high, n)
    decreases m
  {
    if m > 0 {
      JoinedHalf(low, Pow2(m - 1), high);
      ToBitsJoined(low / 2, m - 1, high, n);
      hide Pow2;
    }
  }

  lemma JoinedHalf(low: nat, p: nat, high: nat)
    ensures p * high >= 0 && (2 * p) * high >= 0
    ensures (low + (2 * p) * high) / 2 == low / 2 + p * high && (low + (2 * p) * high) % 2 == low % 2
  {
    assert (2 * p) * high == 2 * (p * high);
  }

  lemma ModHalves(i: int, p: int)
    requires p > 0
    ensures (i % (2 * p)) / 2 == (i / 2) % p
    ensures (i % (2 * p)) % 2 == i % 2
  {
    var q, r := i / (2 * p), i % (2 * p);
    assert i == 2 * (q * p) + r;
    assert i / 2 == q * p + r / 2;
    ModUnique(i / 2, p, q, r / 2);
  }

  lemma MulBounds(d: int, p: int)
    requires p > 0
    ensures d >= 1 ==> d * p >= p
    ensures d <= -1 ==> d * p <= -p
  {
  }

  lemma ModUnique(a: int, p: int, q: int, r: int)
    requires p > 0 && a == q * p + r && 0 <= r < p
    ensures a % p == r && a / p == q
  {
    var d := a / p - q;
    MulBounds(d, p);
    assert a == (a / p) * p + a % p;
    assert d * p == r - a % p;
  }

  /** The bit of weight 2^k of the two's complement pattern of a number is that of the number itself. */
  lemma {:induction false} PatternBit(i: int, w: nat, k: nat)
    requires k < w
    ensures i % Pow2(w) / Pow2(k) % 2 == i / Pow2(k) % 2
    decreases k
  {
    ModHalves(i, Pow2(w - 1));
    if k > 0 {
      PatternBit(i / 2, w - 1, k - 1);
      DivTwice(i, Pow2(k - 1));
      DivTwice(i % Pow2(w), Pow2(k - 1));
    }
  }

  /** Truncating a two's complement pattern: its low `n` bits do not depend on its width `m`. */
  lemma {:induction false} ToBitsTruncates(i: int, m: nat, n: nat)
    requires n <= m
    ensures ToBits(i % Pow2(m), n) == ToBits(i % Pow2(n), n)
    decreases n
  {
    if n > 0 {
      ModHalves(i, Pow2(m - 1));
      ModHalves(i, Pow2(n - 1));
      ToBitsTruncates(i / 2, m - 1, n - 1);
    }
  }

  /** Zero extension does not change the number. */
  lemma {:induction false} FromBitsExtended(b: Bits, zeros: Bits)
    requires forall i :: 0 <= i < |zeros| ==> !zeros[i]
    ensures FromBits(b + zeros) == FromBits(b)
  {
    if b == [] {
      assert b + zeros == zeros;
      FromBitsZero(zeros);
    } else {
      assert (b + zeros)[1..] == b[1..] + zeros;
      FromBitsExtended(b[1..], zeros);
    }
  }

  /** Bits of value zero are all clear, and only they have value zero. */
  lemma {:induction false} FromBitsZero(b: Bits)
    ensures FromBits(b) == 0 <==> forall i :: 0 <= i < |b| ==> !b[i]
  {
    if b != [] {
      FromBitsZero(b[1..]);
      assert forall i :: 1 <= i < |b| ==> b[i] == b[1..][i - 1];
    }
  }

  /** The order in which the packer stores a field: msb first when big-endian. */
  function Ordered(bigEndian: bool, b: Bits): (r: Bits)
    ensures |r| == |b|
  {
    if bigEndian then Reverse(b) else b
  }

  lemma OrderedTwice(bigEndian: bool, b: Bits)
    ensures Ordered(bigEndian, Ordered(bigEndian, b)) == b
  {
    assert Reverse(Reverse(b)) == b;
  }

  /** Byte order never turns a zero unit into a non-zero one. */
  lemma OrderedZero(bigEndian: bool, b: Bits)
    ensures FromBits(Ordered(bigEndian, b)) == 0 <==> FromBits(b) == 0
  {
    FromBitsZero(b);
    FromBitsZero(Ordered(bigEndian, b));
    if bigEndian {
      assert forall i :: 0 <= i < |b| ==> b[i] == Reverse(b)[|b| - 1 - i];
    }
  }

  lemma Pow2Values()
    ensures Pow2(1) == 2 && Pow2(4) == 16 && Pow2(8) == 256
    ensures Pow2(31) == 0x8000_0000 && Pow2(32) == 0x1_0000_0000
    ensures Pow2(63) == 0x8000_0000_0000_0000 && Pow2(64) == 0x1_0000_0000_0000_0000
  {
    assert Pow2(8) == 256;
    assert Pow2(16) == 0x1_0000;
    assert Pow2(24) == 0x100_0000;
    assert Pow2(31) == 0x8000_0000;
    assert Pow2(40) == 0x100_0000_0000;
    assert Pow2(48) == 0x1_0000_0000_0000;
    assert Pow2(56) == 0x100_0000_0000_0000;
    assert Pow2(63) == 0x8000_0000_0000_0000;
  }

  // ----- bytes and words

  function RoundUp(n: nat, unit: nat): (r: nat)
    requires unit > 0
    ensures n <= r < n + unit && r % unit == 0
  {
    ModUnique(((n + unit - 1) / unit) * unit, unit, (n + unit - 1) / unit, 0);
    ((n + unit - 1) / unit) * unit
  }

  /** The units of `b`, each read in the given bit order. */
  function ToUnits(bigEndian: bool, unit: nat, b: Bits): (us: seq<nat>)
    requires unit > 0
  {
    if |b| < unit then []
    else [FromBits(Ordered(bigEndian, b[..unit]))] + ToUnits(bigEndian, unit, b[unit..])
  }

  function FromUnits(bigEndian: bool, unit: nat, us: seq<nat>): Bits
  {
    if us == [] then [] else Ordered(bigEndian, ToBits(us[0], unit)) + FromUnits(bigEndian, unit, us[1..])
  }

  lemma NoUnits(bigEndian: bool, unit: nat)
    requires unit > 0
    ensures ToUnits(bigEndian, unit, []) == [] && FromUnits(bigEndian, unit, []) == []
  {
  }

  lemma NextUnit(i: nat, count: nat, unit: nat)
    requires i < count
    ensures i * unit + unit == (i + 1) * unit <= count * unit
  {
  }

  lemma {:induction false} UnitAt(bigEndian: bool, unit: nat, b: Bits, i: nat)
    requires unit > 0 && i * unit + unit <= |b|
    ensures i < |ToUnits(bigEndian, unit, b)|
    ensures i * unit >= 0
    ensures ToUnits(bigEndian, unit, b)[i] == FromBits(Ordered(bigEndian, b[i * unit..i * unit + unit]))
    decreases i
  {
    hide FromBits, Ordered;
    MulBounds(i, unit);
    if i > 0 {
      var at := (i - 1) * unit;
      assert at == i * unit - unit;
      UnitAt(bigEndian, unit, b[unit..], i - 1);
      assert b[unit..][at..at + unit] == b[i * unit..i * unit + unit];
    }
  }

  /** Unit `i` holds the bits from `i * unit` on: its bit of weight 2^j is the `j`th of them, counted from the other end
      when big-endian. */
  lemma UnitLayout(bigEndian: bool, unit: nat, b: Bits, i: nat, j: nat)
    requires j < unit && i * unit + unit <= |b|
    ensures i < |ToUnits(bigEndian, unit, b)|
    ensures i * unit >= 0
    ensures ToUnits(bigEndian, unit, b)[i] / Pow2(j) % 2 == 1
       <==> b[i * unit + if bigEndian then unit - 1 - j else j]
  {
    hide ToUnits, FromBits, Pow2, Ordered;
    UnitAt(bigEndian, unit, b, i);
    OrderedBit(bigEndian, b[i * unit..i * unit + unit], j);
  }

  lemma OrderedBit(bigEndian: bool, u: Bits, j: nat)
    requires j < |u|
    ensures FromBits(Ordered(bigEndian, u)) / Pow2(j) % 2 == 1 <==> u[if bigEndian then |u| - 1 - j else j]
  {
    var v := Ordered(bigEndian, u);
    ToBitsFromBits(v);
    BitAt(FromBits(v), |u|, j);
  }

  /** Reading whole units out of the buffer and loading them back loses nothing, in either bit order. */
  lemma {:induction false} UnitsRoundTrip(bigEndian: bool, unit: nat, b: Bits, n: nat)
    requires unit > 0 && |b| == n * unit
    ensures FromUnits(bigEndian, unit, ToUnits(bigEndian, unit, b)) == b
    ensures |ToUnits(bigEndian, unit, b)| == n
    decreases n
  {
    if n > 0 {
      assert n * unit == (n - 1) * unit + unit;
      MulBounds(n, unit);
      var first := Ordered(bigEndian, b[..unit]);
      ToBitsFromBits(first);
      OrderedTwice(bigEndian, b[..unit]);
      UnitsRoundTrip(bigEndian, unit, b[unit..], n - 1);
      assert b == b[..unit] + b[unit..];
    } else {
      assert b == [];
    }
  }

  lemma {:induction false} ToUnitsLast(bigEndian: bool, unit: nat, b: Bits, n: nat, u: Bits)
    requires unit > 0 && |b| == n * unit && |u| == unit
    ensures ToUnits(bigEndian, unit, b + u) == ToUnits(bigEndian, unit, b) + [FromBits(Ordered(bigEndian, u))]
    decreases n
  {
    hide FromBits, Ordered;
    if n > 0 {
      assert n * unit == (n - 1) * unit + unit;
      MulBounds(n, unit);
      ToUnitsLast(bigEndian, unit, b[unit..], n - 1, u);
      assert (b + u)[..unit] == b[..unit] && (b + u)[unit..] == b[unit..] + u;
    } else {
      assert b == [] && b + u == u && u[..unit] == u && u[unit..] == [];
    }
  }

  lemma {:induction false} FromUnitsLast(bigEndian: bool, unit: nat, us: seq<nat>, u: nat)
    ensures FromUnits(bigEndian, unit, us + [u])
         == FromUnits(bigEndian, unit, us) + Ordered(bigEndian, ToBits(u, unit))
  {
    hide ToBits, Ordered;
    if us == [] {
      assert us + [u] == [u] && [u][1..] == [];
    } else {
      FromUnitsLast(bigEndian, unit, us[1..], u);
      ConcatAssoc(Ordered(bigEndian, ToBits(us[0], unit)), FromUnits(bigEndian, unit, us[1..]),
                  Ordered(bigEndian, ToBits(u, unit)));
      assert (us + [u])[1..] == us[1..] + [u];
    }
  }

  lemma {:induction false} FromUnitsLength(bigEndian: bool, unit: nat, us: seq<nat>)
    ensures |FromUnits(bigEndian, unit, us)| == |us| * unit
  {
    if us != [] {
      FromUnitsLength(bigEndian, unit, us[1..]);
      assert |us| * unit == |us[1..]| * unit + unit;
    }
  }
}
