/** The packer: one growable bit buffer with a write and a read cursor, and the objects it serialises. */
module Packing {
  import opened Bits
  import opened Sequences
  import opened Codec
  import opened ObjectGraph
  import Scopes = ScopeStack

  const BLOCK_SIZE: nat := 4096

  /** Integer division that truncates toward zero, as in C++. */
  function TruncDiv(a: int, b: int): int
    requires b > 0
  {
    if a >= 0 then a / b else -((-a) / b)
  }

  /** The buffer size for `total` bits: whole blocks, and one block even for none. */
  function BlockRound(total: nat): (r: nat)
    ensures r >= total && r % BLOCK_SIZE == 0 && 0 < r <= total + BLOCK_SIZE
  {
    (TruncDiv(total - 1, BLOCK_SIZE) + 1) * BLOCK_SIZE
  }

  /** Rounding up to bytes or words stays inside a buffer of whole blocks. */
  lemma WholeUnits(n: nat, unit: nat, size: nat)
    requires 0 < n <= size && size % BLOCK_SIZE == 0 && (unit == 8 || unit == 32)
    ensures (1 + (n - 1) / unit) * unit == RoundUp(n, unit) <= size
  {
    assert (n + unit - 1) / unit == 1 + (n - 1) / unit;
    if unit == 8 {
      assert size % 8 == 0;
    } else {
      assert size % 32 == 0;
    }
  }

  /** The units hold `b`, padded with any bits to a whole number of units. */
  ghost predicate PaddedUnits(cfg: Config, unit: nat, b: Bits, us: seq<nat>)
    requires unit > 0
  {
    exists padding: Bits :: |b + padding| == RoundUp(|b|, unit) && us == ToUnits(cfg.bigEndian, unit, b + padding)
  }

  class StatusContainer {
    var cycleCheck: set<UvmObject>

    constructor ()
      ensures cycleCheck == {}
    {
      cycleCheck := {};
    }
  }

  /** An object: its name and what its pack and unpack hooks visit. */
  class UvmObject {
    const name: string
    var fields: seq<Field<UvmObject>>

    constructor (name: string, fields: seq<Field<UvmObject>>)
      ensures this.name == name && this.fields == fields
    {
      this.name, this.fields := name, fields;
    }

    /** Packs this object, the top one: it is not registered in the cycle check. */
    method MPack(packer: Packer, ghost U: set<UvmObject>, ghost g: Graph<UvmObject>)
      requires packer.Valid() && this in U && Holds(U, g) && Closed(g)
      modifies packer`packIndex, packer`packed, packer`unpackIndex, packer`size, packer`maxSize, packer`bits,
               packer.bits, packer.scope, packer.status
      ensures packer.Valid() && (packer.bits == old(packer.bits) || fresh(packer.bits))
      ensures this in g && FieldsOk(g, g[this].fields)
      ensures packer.packed == EncodeFields(packer.Cfg(), g, g[this].fields, old(packer.status.cycleCheck))
      ensures packer.unpackIndex == 0
      ensures packer.status.cycleCheck == old(packer.status.cycleCheck)
      ensures PlainNames(U) ==> packer.scope.stack == old(packer.scope.stack)
    {
      hide EncodeFields, Holds, Closed, PlainNames, Scopes.AfterUp, Scopes.Bracketed;
      FieldsHeld(U, g, this);
      packer.Reset();
      packer.PackBody(this, U, g);
    }

    /** Appends the encoding of the object to the caller's bits. */
    method Pack(initial: Bits, packer: Packer, ghost U: set<UvmObject>, ghost g: Graph<UvmObject>)
      returns (stream: Bits, count: nat)
      requires packer.Valid() && this in U && Holds(U, g) && Closed(g)
      modifies packer`packIndex, packer`packed, packer`unpackIndex, packer`size, packer`maxSize, packer`bits,
               packer.bits, packer.scope, packer.status
      ensures packer.Valid() && (packer.bits == old(packer.bits) || fresh(packer.bits))
      ensures packer.status.cycleCheck == old(packer.status.cycleCheck)
      ensures this in g && FieldsOk(g, g[this].fields)
      ensures stream == initial + EncodeFields(packer.Cfg(), g, g[this].fields, old(packer.status.cycleCheck))
      ensures count == |stream| - |initial|
    {
      hide EncodeFields, Holds, Closed, PlainNames;
      MPack(packer, U, g);
      stream := packer.GetBits(initial);
      count := packer.packIndex;
    }

    /** Packing into bytes or words: the packed bits, padded with stale ones. The source forbids nothing, but with
        no bit packed its count wraps around, which is not part of this model. */
    method PackUnits(unit: nat, initial: seq<nat>, packer: Packer, ghost U: set<UvmObject>, ghost g: Graph<UvmObject>)
      returns (us: seq<nat>, count: nat)
      requires packer.Valid() && this in U && Holds(U, g) && Closed(g) && (unit == 8 || unit == 32)
      requires this in g && EncodeFields(packer.Cfg(), g, g[this].fields, packer.status.cycleCheck) != []
      modifies packer`packIndex, packer`packed, packer`unpackIndex, packer`size, packer`maxSize, packer`bits,
               packer.bits, packer.scope, packer.status
      ensures packer.Valid() && (packer.bits == old(packer.bits) || fresh(packer.bits))
      ensures packer.status.cycleCheck == old(packer.status.cycleCheck)
      ensures var b := EncodeFields(packer.Cfg(), g, g[this].fields, old(packer.status.cycleCheck));
              && count == |b|
              && initial <= us && PaddedUnits(packer.Cfg(), unit, b, us[|initial|..])
    {
      hide EncodeFields, Holds, PlainNames, ToUnits;
      MPack(packer, U, g);
      us := packer.GetUnits(unit, initial);
      count := packer.packIndex;
      ghost var end := RoundUp(count, unit);
      assert packer.bits[..end] == packer.packed + packer.bits[count..end];
      assert us[|initial|..] == ToUnits(packer.bigEndian, unit, packer.bits[..end]);
      assert PaddedUnits(packer.Cfg(), unit, packer.packed, us[|initial|..]);
    }

    /** Reads the bits now in the packer into this object and everything it refers to. */
    method MUnpackPost(packer: Packer, ghost U: set<UvmObject>, ghost h: Graph<UvmObject>)
      returns (complete: bool, ghost h': Graph<UvmObject>)
      requires packer.Valid() && packer.unpackIndex <= packer.packIndex && this in U && Holds(U, h) && Readable(h)
      requires this in h && DecodeFields(packer.Cfg(), h, this, 0, packer.status.cycleCheck, packer.Window()).Ok?
      modifies packer`unpackIndex, packer.scope, packer.status, U`fields
      ensures packer.Valid() && packer.unpackIndex <= packer.packIndex && Holds(U, h') && Readable(h') && complete
      ensures DecodeFields(packer.Cfg(), h, this, 0, old(packer.status.cycleCheck), old(packer.Window()))
           == Ok(h', packer.Window())
      ensures packer.status.cycleCheck == old(packer.status.cycleCheck)
      ensures PlainNames(U) ==> packer.scope.stack == old(packer.scope.stack)
    {
      hide DecodeFields, Holds, PlainNames, Readable, Packer.Valid, Packer.Window;
      var providedSize := packer.packIndex;
      h' := packer.UnpackBody(this, U, h);
      complete := packer.packIndex == providedSize;
    }

    method Unpack(stream: Bits, packer: Packer, ghost U: set<UvmObject>, ghost h: Graph<UvmObject>)
      returns (count: nat, ghost h': Graph<UvmObject>)
      requires packer.Valid() && this in U && Holds(U, h) && Readable(h)
      requires this in h && DecodeFields(packer.Cfg(), h, this, 0, packer.status.cycleCheck, stream).Ok?
      modifies packer`packIndex, packer`packed, packer`unpackIndex, packer`size, packer`maxSize, packer`bits,
               packer.bits, packer.scope, packer.status, U`fields
      ensures packer.Valid() && Holds(U, h') && count == |stream| && packer.unpackIndex <= packer.packIndex
      ensures packer.status.cycleCheck == old(packer.status.cycleCheck)
      ensures DecodeFields(packer.Cfg(), h, this, 0, old(packer.status.cycleCheck), stream) == Ok(h', packer.Window())
    {
      hide DecodeFields, Holds, PlainNames, Readable;
      packer.Reset();
      packer.PutBits(stream);
      assert packer.Window() == stream;
      var complete;
      complete, h' := MUnpackPost(packer, U, h);
      count := packer.packIndex;
    }

    method UnpackUnits(unit: nat, us: seq<nat>, packer: Packer, ghost U: set<UvmObject>, ghost h: Graph<UvmObject>)
      returns (count: nat, ghost h': Graph<UvmObject>)
      requires packer.Valid() && this in U && Holds(U, h) && Readable(h) && (unit == 8 || unit == 32)
      requires this in h && DecodeFields(packer.Cfg(), h, this, 0, packer.status.cycleCheck,
                                         FromUnits(packer.bigEndian, unit, us)).Ok?
      modifies packer`packIndex, packer`packed, packer`unpackIndex, packer`size, packer`maxSize, packer`bits,
               packer.bits, packer.scope, packer.status, U`fields
      ensures packer.Valid() && Holds(U, h') && count == |us| * unit && packer.unpackIndex <= packer.packIndex
      ensures packer.status.cycleCheck == old(packer.status.cycleCheck)
      ensures DecodeFields(packer.Cfg(), h, this, 0, old(packer.status.cycleCheck), FromUnits(packer.bigEndian, unit, us))
           == Ok(h', packer.Window())
    {
      hide DecodeFields, Holds, PlainNames, Readable, FromUnits;
      packer.Reset();
      packer.PutUnits(unit, us);
      var complete;
      complete, h' := MUnpackPost(packer, U, h);
      count := packer.packIndex;
    }

    /** The hook do_pack: every field in order. */
    method DoPack(packer: Packer, ghost U: set<UvmObject>, ghost g: Graph<UvmObject>)
      requires packer.Valid() && this in U && Holds(U, g) && Closed(g)
      modifies packer`packIndex, packer`packed, packer`size, packer`maxSize, packer`bits, packer.bits,
               packer.scope, packer.status
      ensures packer.Valid() && (packer.bits == old(packer.bits) || fresh(packer.bits))
      ensures packer.packed
           == old(packer.packed) + EncodeFields(packer.Cfg(), g, g[this].fields, old(packer.status.cycleCheck))
      ensures packer.status.cycleCheck == old(packer.status.cycleCheck)
      ensures PlainNames(U) ==> packer.scope.stack == old(packer.scope.stack)
      decreases |U - packer.status.cycleCheck|, 2
    {
      hide EncodeFields, EncodeField, Packer.Valid, Holds, Closed, PlainNames;
      ghost var open := packer.status.cycleCheck;
      FieldsHeld(U, g, this);
      EncodeNothing(packer.Cfg(), g, open);
      assert fields[..0] == [];
      for i := 0 to |fields|
        invariant packer.Valid() && (packer.bits == old(packer.bits) || fresh(packer.bits))
        invariant Holds(U, g)
        invariant packer.status.cycleCheck == open
        invariant PlainNames(U) ==> packer.scope.stack == old(packer.scope.stack)
        invariant FieldsOk(g, fields[..i])
        invariant packer.packed == old(packer.packed) + EncodeFields(packer.Cfg(), g, fields[..i], open)
      {
        assert fields[..i + 1] == fields[..i] + [fields[i]];
        EncodeLastField(packer.Cfg(), g, fields[..i], fields[i], open);
        packer.PackField(fields[i], U, g);
      }
      assert fields[..|fields|] == fields;
    }

    /** The hook do_unpack: every field in order, leaves overwritten in place. */
    method DoUnpack(packer: Packer, ghost U: set<UvmObject>, ghost h: Graph<UvmObject>)
      returns (ghost h': Graph<UvmObject>)
      requires packer.Valid() && packer.unpackIndex <= packer.packIndex && this in U && Holds(U, h) && Readable(h)
      requires this in h && DecodeFields(packer.Cfg(), h, this, 0, packer.status.cycleCheck, packer.Window()).Ok?
      modifies packer`unpackIndex, packer.scope, packer.status, U`fields
      ensures packer.Valid() && packer.unpackIndex <= packer.packIndex && Holds(U, h') && Readable(h')
      ensures DecodeFields(packer.Cfg(), h, this, 0, old(packer.status.cycleCheck), old(packer.Window()))
           == Ok(h', packer.Window())
      ensures packer.status.cycleCheck == old(packer.status.cycleCheck)
      ensures PlainNames(U) ==> packer.scope.stack == old(packer.scope.stack)
      decreases |U - packer.status.cycleCheck|, 2
    {
      hide DecodeFields, DecodeField, Packer.Window, Packer.Valid, Holds, PlainNames, Readable, Linked, SameShapes;
      ghost var open := packer.status.cycleCheck;
      HeldFields(U, h, this);
      ghost var whole := DecodeFields(packer.Cfg(), h, this, 0, open, packer.Window());
      h' := h;
      var i := 0;
      while i < |fields|
        invariant packer.Valid() && packer.unpackIndex <= packer.packIndex
        invariant Holds(U, h') && Readable(h') && Linked(h')
        invariant this in h' && h'[this].fields == fields && i <= |fields| == |old(fields)|
        invariant packer.status.cycleCheck == open
        invariant PlainNames(U) ==> packer.scope.stack == old(packer.scope.stack)
        invariant DecodeFields(packer.Cfg(), h', this, i, open, packer.Window()) == whole
        decreases |fields| - i
      {
        NextField(packer.Cfg(), h', this, i, open, packer.Window());
        h' := packer.UnpackField(this, i, U, h');
        HeldFields(U, h', this);
        i := i + 1;
      }
      NextField(packer.Cfg(), h', this, i, open, packer.Window());
    }
  }

  class Packer {
    const scope: Scopes.ScopeStack
    const status: StatusContainer
    var bigEndian: bool
    var useMetadata: bool
    var byReference: bool

    var bits: array<bool>  // of length zero as long as nothing has been allocated
    var packIndex: nat
    var unpackIndex: nat
    var size: nat
    var maxSize: nat
    ghost var packed: Bits  // everything packed so far

    ghost predicate Valid()
      reads this, bits
    {
      && packIndex <= size <= maxSize == bits.Length && size % BLOCK_SIZE == 0
      && packed == bits[..packIndex]
    }

    function Cfg(): Config
      reads this
    {
      Config(bigEndian, useMetadata, byReference)
    }

    /** What has been packed and not yet unpacked. */
    ghost function Window(): Bits
      reads this
    {
      if unpackIndex <= |packed| then packed[unpackIndex..] else []
    }

    constructor (scope: Scopes.ScopeStack, status: StatusContainer)
      ensures Valid() && packed == [] && this.scope == scope && this.status == status
      ensures !bigEndian && !useMetadata && !byReference && fresh(bits)
    {
      this.scope, this.status := scope, status;
      bigEndian, useMetadata, byReference := false, false, false;
      bits := new bool[0];
      packIndex, unpackIndex, size, maxSize := 0, 0, 0, 0;
      packed := [];
    }

    // ----- buffer management

    method Reset()
      requires Valid()
      modifies `packIndex, `packed, `unpackIndex, `size
      ensures Valid() && packed == [] && unpackIndex == 0 && size == 0
    {
      packIndex, unpackIndex, size := 0, 0, 0;
      packed := [];
    }

    /** Makes room for `nbits` more bits. Only when the buffer has to grow beyond its largest size so far is it
        replaced, and then its contents are copied if `keep` is set; otherwise stale bits stay where they are. */
    method Allocate(nbits: nat, keep: bool)
      requires Valid() && (keep || packIndex == 0)
      modifies `size, `maxSize, `bits
      ensures Valid()
      ensures size == BlockRound(packIndex + nbits)
      ensures maxSize == if size > old(maxSize) then size else old(maxSize)
      ensures size <= old(maxSize) ==> bits == old(bits)
      ensures size > old(maxSize) ==> fresh(bits)
      ensures keep ==> bits[..old(bits.Length)] == old(bits[..])
    {
      var totalBits := packIndex + nbits;
      var newSize := (TruncDiv(totalBits - 1, BLOCK_SIZE) + 1) * BLOCK_SIZE;
      size := BlockRound(totalBits);
      assert size == newSize;
      if size > maxSize {
        maxSize := size;
        var wider := new bool[size](_ => false);
        if keep {
          forall i | 0 <= i < bits.Length {
            wider[i] := bits[i];
          }
        }
        bits := wider;
      }
    }

    method CheckSize(nbits: nat)
      requires Valid()
      modifies `size, `maxSize, `bits
      ensures Valid() && packIndex + nbits <= size
      ensures size == if nbits >= old(size) - packIndex then BlockRound(packIndex + nbits) else old(size)
      ensures bits == old(bits) || fresh(bits)
      ensures old(bits.Length) <= bits.Length && bits[..old(bits.Length)] == old(bits[..])
    {
      var capacity := size - packIndex;
      if nbits >= capacity {
        Allocate(nbits, true);
      }
    }

    /** Assigns `b` to the bits from `at` on. */
    method Store(at: nat, b: Bits)
      requires at + |b| <= bits.Length
      modifies bits
      ensures bits[..at] == old(bits[..at])
      ensures bits[at..at + |b|] == b
      ensures bits[at + |b|..] == old(bits[at + |b|..])
    {
      forall i | 0 <= i < |b| {
        bits[at + i] := b[i];
      }
    }

    /** The common end of the field writers. */
    method Append(b: Bits)
      requires Valid()
      modifies `packIndex, `packed, `size, `maxSize, `bits, bits
      ensures Valid() && (bits == old(bits) || fresh(bits))
      ensures packed == old(packed) + b
    {
      CheckSize(|b|);
      ghost var before := bits[..packIndex];
      assert before == old(packed) by {
        assert before == bits[..old(bits.Length)][..packIndex];
      }
      Store(packIndex, b);
      packIndex := packIndex + |b|;
      packed := packed + b;
      assert bits[..packIndex] == bits[..packIndex - |b|] + bits[packIndex - |b|..packIndex];
    }

    method EnoughBits(needed: nat) returns (enough: bool)
      requires Valid()
      ensures enough <==> unpackIndex + needed <= packIndex
    {
      enough := !(packIndex - unpackIndex < needed);
    }

    // ----- bulk transfers

    /** Appends the first bits of the buffer, as many as remain unread. */
    method GetBits(initial: Bits) returns (stream: Bits)
      requires Valid() && unpackIndex <= packIndex
      ensures stream == initial + bits[..packIndex - unpackIndex]
    {
      var n := packIndex - unpackIndex;
      stream := initial;
      for i := 0 to n
        invariant stream == initial + bits[..i]
      {
        stream := stream + [bits[i]];
      }
    }

    /** The same in bytes or words, rounded up: the padding is whatever the buffer holds there. */
    method GetUnits(unit: nat, initial: seq<nat>) returns (us: seq<nat>)
      requires Valid() && unpackIndex < packIndex && (unit == 8 || unit == 32)
      ensures RoundUp(packIndex - unpackIndex, unit) <= size
      ensures us == initial + ToUnits(bigEndian, unit, bits[..RoundUp(packIndex - unpackIndex, unit)])
    {
      hide ToUnits;
      var n := packIndex - unpackIndex;
      var count := 1 + (n - 1) / unit;
      WholeUnits(n, unit, size);
      us := ReadUnits(unit, count, initial);
    }

    method ReadUnits(unit: nat, count: nat, initial: seq<nat>) returns (us: seq<nat>)
      requires unit > 0 && count * unit <= bits.Length
      ensures us == initial + ToUnits(bigEndian, unit, bits[..count * unit])
    {
      hide ToUnits, FromBits, Ordered;
      us := initial;
      assert bits[..0] == [] && initial + [] == initial;
      NoUnits(bigEndian, unit);
      var at := 0;
      for i := 0 to count
        invariant at == i * unit
        invariant us == initial + ToUnits(bigEndian, unit, bits[..at])
      {
        NextUnit(i, count, unit);
        var u := bits[at..at + unit];
        ToUnitsLast(bigEndian, unit, bits[..at], i, u);
        assert bits[..at + unit] == bits[..at] + u;
        ConcatAssoc(initial, ToUnits(bigEndian, unit, bits[..at]), [FromBits(Ordered(bigEndian, u))]);
        us := us + [FromBits(Ordered(bigEndian, u))];
        at := at + unit;
      }
    }

    method PutBits(stream: Bits)
      requires Valid()
      modifies `packIndex, `packed, `unpackIndex, `size, `maxSize, `bits, bits
      ensures Valid() && (bits == old(bits) || fresh(bits))
      ensures packed == stream && unpackIndex == 0
    {
      Reset();
      var n := |stream|;
      Allocate(n, false);
      if !bigEndian {
        for i := 0 to n
          modifies bits
          invariant forall j :: 0 <= j < i ==> bits[j] == stream[j]
        {
          bits[i] := stream[i];
        }
      } else {
        for i := n downto 0
          modifies bits
          invariant forall j :: i <= j < n ==> bits[j] == stream[j]
        {
          bits[i] := stream[i];
        }
      }
      packIndex := n;
      packed := stream;
    }

    method PutUnits(unit: nat, us: seq<nat>)
      requires Valid() && (unit == 8 || unit == 32)
      modifies `packIndex, `packed, `unpackIndex, `size, `maxSize, `bits, bits
      ensures Valid() && (bits == old(bits) || fresh(bits))
      ensures packed == FromUnits(bigEndian, unit, us) && unpackIndex == 0 && packIndex == |us| * unit
    {
      Reset();
      Allocate(|us| * unit, false);
      StoreUnits(unit, us);
      packIndex := |us| * unit;
      packed := bits[..packIndex];
    }

    method StoreUnits(unit: nat, us: seq<nat>)
      requires unit > 0 && |us| * unit <= bits.Length
      modifies bits
      ensures bits[..|us| * unit] == FromUnits(bigEndian, unit, us)
    {
      hide FromUnits, ToBits, Ordered;
      NoUnits(bigEndian, unit);
      var at := 0;
      for i := 0 to |us|
        invariant at == i * unit
        invariant bits[..at] == FromUnits(bigEndian, unit, us[..i])
      {
        NextUnit(i, |us|, unit);
        var u := Ordered(bigEndian, ToBits(us[i], unit));
        FromUnitsLast(bigEndian, unit, us[..i], us[i]);
        assert us[..i + 1] == us[..i] + [us[i]];
        Store(at, u);
        assert bits[..at + unit] == bits[..at] + u;
        at := at + unit;
      }
      assert us[..|us|] == us;
    }

    // ----- writing fields

    /** Packs the low `n` bits of `value`, msb first when big-endian. */
    method PackFieldInt(value: nat, n: nat)
      requires Valid() && 1 <= n <= 64 && value < 0x1_0000_0000_0000_0000
      modifies `packIndex, `packed, `size, `maxSize, `bits, bits
      ensures Valid() && (bits == old(bits) || fresh(bits))
      ensures packed == old(packed) + Ordered(bigEndian, ToBits(value, n))
    {
      var word := ToBits(value, 64);
      ToBitsPrefix(value, 64, n);
      var tmp := new bool[64](i requires 0 <= i < 64 => word[i]);
      if bigEndian {
        for i := 0 to n
          modifies tmp
          invariant forall j :: 0 <= j < i ==> tmp[j] == word[n - 1 - j]
        {
          tmp[i] := word[n - 1 - i];
        }
      }
      assert forall j :: 0 <= j < n ==> word[j] == ToBits(value, n)[j];
      assert tmp[..n] == Ordered(bigEndian, ToBits(value, n));
      Append(tmp[..n]);
    }

    /** The stream operator of an integer type: sign-extended to 64 bits, then cut to the width of the type. */
    method PackInt(i: int, width: nat, signed: bool)
      requires Valid() && HasKind(VInt(i), KInt(width, signed))
      modifies `packIndex, `packed, `size, `maxSize, `bits, bits
      ensures Valid() && (bits == old(bits) || fresh(bits))
      ensures packed == old(packed) + EncodeInt(Cfg(), i, width)
    {
      Pow2Values();
      ToBitsTruncates(i, 64, width);
      PackFieldInt(Pattern(i, 64), width);
    }

    method PackReal(r: Real)
      requires Valid() && r.Valid()
      modifies `packIndex, `packed, `size, `maxSize, `bits, bits
      ensures Valid() && (bits == old(bits) || fresh(bits))
      ensures packed == old(packed) + EncodeInt(Cfg(), RealToBits(r), 64)
    {
      Pow2Values();
      PatternOfNat(RealToBits(r), 64);
      PackFieldInt(RealToBits(r), 64);
    }

    method PackBool(b: bool)
      requires Valid()
      modifies `packIndex, `packed, `size, `maxSize, `bits, bits
      ensures Valid() && (bits == old(bits) || fresh(bits))
      ensures packed == old(packed) + [b]
    {
      Append([b]);
    }

    method PackChar(c: Byte)
      requires Valid()
      modifies `packIndex, `packed, `size, `maxSize, `bits, bits
      ensures Valid() && (bits == old(bits) || fresh(bits))
      ensures packed == old(packed) + EncodeChar(Cfg(), c)
    {
      var b := ToBits(c, 8);
      var swapped := new bool[8](i requires 0 <= i < 8 => b[i]);
      if bigEndian {
        for i := 0 to 8
          modifies swapped
          invariant forall j :: 0 <= j < i ==> swapped[j] == b[7 - j]
        {
          swapped[i] := b[7 - i];
        }
      }
      assert swapped[..] == EncodeChar(Cfg(), c);
      Append(swapped[..]);
    }

    method PackString(value: seq<Byte>)
      requires Valid()
      modifies `packIndex, `packed, `size, `maxSize, `bits, bits
      ensures Valid() && (bits == old(bits) || fresh(bits))
      ensures packed == old(packed) + EncodeString(Cfg(), value)
    {
      hide EncodeChar, Packer.Valid;
      for i := 0 to |value|
        invariant Valid() && (bits == old(bits) || fresh(bits))
        invariant packed == old(packed) + EncodeChars(Cfg(), value[..i])
      {
        EncodeLastChar(Cfg(), value[..i], value[i]);
        assert value[..i + 1] == value[..i] + [value[i]];
        PackChar(value[i]);
      }
      assert value[..|value|] == value;
      if useMetadata {
        PackChar(0);
      }
    }

    /** A bit vector, lsb first in either byte order. */
    method PackScBv(a: Bits)
      requires Valid() && a != []
      modifies `packIndex, `packed, `size, `maxSize, `bits, bits
      ensures Valid() && (bits == old(bits) || fresh(bits))
      ensures packed == old(packed) + a
    {
      Append(a);
    }

    /** The SystemC integer types are written bit by bit, with the same outcome. */
    method PackScInt(a: Bits)
      requires Valid() && a != []
      modifies `packIndex, `packed, `size, `maxSize, `bits, bits
      ensures Valid() && (bits == old(bits) || fresh(bits))
      ensures packed == old(packed) + a
    {
      CheckSize(|a|);
      assert bits[..packIndex] == bits[..old(bits.Length)][..packIndex];
      for i := 0 to |a|
        invariant Valid() && packIndex == old(packIndex) + i && packIndex + |a| - i <= size
        invariant bits == old(bits) || fresh(bits)
        invariant packed == old(packed) + a[..i]
      {
        bits[packIndex] := a[i];
        packIndex := packIndex + 1;
        packed := packed + [a[i]];
        assert bits[..packIndex] == bits[..packIndex - 1] + [a[i]];
        ConcatAssoc(old(packed), a[..i], [a[i]]);
        assert a[..i + 1] == a[..i] + [a[i]];
      }
      assert a[..|a|] == a;
    }

    method PackValue(k: Kind, v: Value)
      requires Valid() && HasKind(v, k)
      modifies `packIndex, `packed, `size, `maxSize, `bits, bits
      ensures Valid() && (bits == old(bits) || fresh(bits))
      ensures packed == old(packed) + EncodeValue(Cfg(), k, v)
      decreases k, 0
    {
      match k
      case KBool => PackBool(v.b);
      case KInt(width, signed) => PackInt(v.i, width, signed);
      case KReal => PackReal(v.r);
      case KBits(_) => PackScBv(v.bits);
      case KString => PackString(v.chars);
      case KVector(e) => PackVector(e, v.elements);
    }

    /** A vector: its size as a 32-bit int, then its elements. */
    method PackVector(e: Kind, a: seq<Value>)
      requires Valid() && HasKind(VVector(a), KVector(e))
      modifies `packIndex, `packed, `size, `maxSize, `bits, bits
      ensures Valid() && (bits == old(bits) || fresh(bits))
      ensures packed == old(packed) + EncodeValue(Cfg(), KVector(e), VVector(a))
      decreases e, 2
    {
      hide EncodeInt, EncodeElements, Packer.Valid;
      SizeHasKind(|a|);
      PackInt(|a|, 32, true);
      PackElements(e, a);
    }

    method PackElements(e: Kind, a: seq<Value>)
      requires Valid() && forall x :: x in a ==> HasKind(x, e)
      modifies `packIndex, `packed, `size, `maxSize, `bits, bits
      ensures Valid() && (bits == old(bits) || fresh(bits))
      ensures packed == old(packed) + EncodeElements(Cfg(), e, a)
      decreases e, 1
    {
      hide EncodeValue, HasKind, Packer.Valid;
      for i := 0 to |a|
        invariant Valid() && (bits == old(bits) || fresh(bits))
        invariant packed == old(packed) + EncodeElements(Cfg(), e, a[..i])
      {
        EncodeLast(Cfg(), e, a[..i], a[i]);
        assert a[..i + 1] == a[..i] + [a[i]];
        PackValue(e, a[i]);
      }
      assert a[..|a|] == a;
    }

    // ----- reading fields

    method IncUnpackIndex(n: nat)
      requires Valid()
      modifies `unpackIndex
      ensures unpackIndex == old(unpackIndex) + n
      ensures n <= old(|Window()|) ==> Window() == old(Window())[n..]
    {
      unpackIndex := unpackIndex + n;
    }

    method IsNull() returns (r: bool)
      requires Valid() && unpackIndex + 4 <= bits.Length
      ensures r <==> bits[unpackIndex..unpackIndex + 4] == NULL_HEADER
    {
      var header := bits[unpackIndex..unpackIndex + 4];
      FromBitsZero(header);
      r := FromBits(header) == 0;
    }

    /** Unpacks `n` bits as an unsigned number; zero, and nothing consumed, when fewer remain. */
    method UnpackFieldInt(n: nat) returns (value: nat)
      requires Valid() && 1 <= n <= 64
      modifies `unpackIndex
      ensures old(unpackIndex) + n <= packIndex ==>
                && unpackIndex == old(unpackIndex) + n
                && value == FromBits(Ordered(bigEndian, old(Window())[..n]))
      ensures packIndex < old(unpackIndex) + n ==> unpackIndex == old(unpackIndex) && value == 0
      ensures value < Pow2(n)
    {
      hide FromBits, Pow2;
      var enough := EnoughBits(n);
      if !enough {
        return 0;
      }
      var a := bits[unpackIndex..unpackIndex + n];
      assert a == Window()[..n];
      IncUnpackIndex(n);
      var word := new bool[64](i requires 0 <= i < 64 => i < n && a[i]);
      if bigEndian {
        var tmp := new bool[64](_ => false);
        for i := 0 to n
          modifies tmp
          invariant forall j :: 0 <= j < i ==> tmp[j] == a[n - 1 - j]
          invariant forall j :: i <= j < 64 ==> !tmp[j]
        {
          tmp[i] := a[n - 1 - i];
        }
        word := tmp;
      }
      assert word[..] == Ordered(bigEndian, a) + word[n..];
      FromBitsExtended(Ordered(bigEndian, a), word[n..]);
      value := FromBits(word[..]);
    }

    /** The stream operator of an integer type: the bits reinterpreted at the width of the type; zero, and nothing
        consumed, when too few remain. */
    method UnpackInt(width: nat, signed: bool) returns (i: int)
      requires Valid() && 1 <= width <= 64
      modifies `unpackIndex
      ensures Valid()
      ensures old(unpackIndex) + width <= packIndex ==>
                unpackIndex <= packIndex && DecodeInt(Cfg(), width, signed, old(Window())) == Ok(i, Window())
      ensures packIndex < old(unpackIndex) + width ==> unpackIndex == old(unpackIndex) && i == 0
    {
      var p := UnpackFieldInt(width);
      i := FromPattern(p, width, signed);
      if old(unpackIndex) + width <= packIndex {
        assert Window() == old(Window())[width..];
      }
    }

    /** A real, or zero when fewer than 64 bits remain. */
    method UnpackReal() returns (r: Real)
      requires Valid()
      modifies `unpackIndex
      ensures r.Valid()
      ensures old(unpackIndex) + 64 <= packIndex ==>
                && unpackIndex <= packIndex
                && DecodeValue(Cfg(), KReal, old(Window())) == Ok(VReal(r), Window())
      ensures packIndex < old(unpackIndex) + 64 ==> unpackIndex == old(unpackIndex) && r == Real(false, 0, 0, 0)
    {
      var enough := EnoughBits(64);
      if enough {
        var v := UnpackFieldInt(64);
        Pow2Values();
        r := BitsToReal(v);
        assert Window() == old(Window())[64..];
      } else {
        r := Real(false, 0, 0, 0);
      }
    }

    /** One bit, taken from the buffer without asking whether it has been packed. */
    method UnpackBool() returns (b: bool)
      requires Valid() && unpackIndex < bits.Length
      modifies `unpackIndex
      ensures unpackIndex == old(unpackIndex) + 1 && b == bits[old(unpackIndex)]
      ensures old(unpackIndex) < packIndex ==> old(Window()) == [b] + Window()
    {
      b := bits[unpackIndex];
      IncUnpackIndex(1);
    }

    /** The byte at `at`, its bits swapped when big-endian. */
    method ReadByte(at: nat) returns (c: Byte)
      requires Valid() && at + 8 <= bits.Length
      ensures c == DecodeChar(Cfg(), bits[at..at + 8])
    {
      hide FromBits, Pow2;
      Pow2Values();
      var b := bits[at..at + 8];
      if bigEndian {
        var swapped := new bool[8](_ => false);
        for j := 0 to 8
          modifies swapped
          invariant forall m :: 0 <= m < j ==> swapped[7 - m] == b[m]
        {
          swapped[7 - j] := b[j];
        }
        assert swapped[..] == Reverse(b);
        c := FromBits(swapped[..]);
      } else {
        c := FromBits(b);
      }
    }

    /** Bytes up to a NUL (`numChars` -1) or up to a count, as far as bits remain; with metadata one more byte
        is consumed at the end. */
    method UnpackString(numChars: int) returns (s: seq<Byte>)
      requires Valid() && unpackIndex <= packIndex
      modifies `unpackIndex
      ensures Valid() && unpackIndex <= packIndex
      ensures (s, Window()) == DecodeString(Cfg(), numChars, old(Window()))
    {
      s := UnpackChars(numChars);
      if useMetadata {
        var enough := EnoughBits(8);
        if enough {
          IncUnpackIndex(8);
        }
      }
    }

    method NextByte() returns (c: Byte)
      requires Valid() && unpackIndex + 8 <= packIndex
      modifies `unpackIndex
      ensures Valid() && unpackIndex <= packIndex && |old(Window())| >= 8
      ensures c == DecodeChar(Cfg(), old(Window())[..8]) && Window() == old(Window())[8..]
    {
      assert bits[unpackIndex..unpackIndex + 8] == Window()[..8];
      c := ReadByte(unpackIndex);
      IncUnpackIndex(8);
    }

    method UnpackChars(numChars: int) returns (s: seq<Byte>)
      requires Valid() && unpackIndex <= packIndex
      modifies `unpackIndex
      ensures Valid() && unpackIndex <= packIndex
      ensures (s, Window()) == DecodeChars(Cfg(), numChars, 0, old(Window()))
    {
      hide DecodeChars, DecodeChar, FromBits;
      s := [];
      var i := 0;
      ghost var whole := DecodeChars(Cfg(), numChars, 0, Window());
      assert s + whole.0 == whole.0;
      while unpackIndex + 8 <= packIndex &&
            (FromBits(bits[unpackIndex..unpackIndex + 8]) != 0 || numChars != -1) &&
            (i < numChars || numChars == -1)
        invariant unpackIndex <= packIndex && i == |s|
        invariant var now := DecodeChars(Cfg(), numChars, i, Window());
                  s + now.0 == whole.0 && now.1 == whole.1
        decreases packIndex - unpackIndex
      {
        ghost var w := Window();
        assert bits[unpackIndex..unpackIndex + 8] == w[..8];
        var c := NextByte();
        DecodeCharsStep(Cfg(), numChars, i, w, s);
        s := s + [c];
        i := i + 1;
      }
      assert unpackIndex + 8 <= packIndex ==> bits[unpackIndex..unpackIndex + 8] == Window()[..8];
      DecodeCharsStep(Cfg(), numChars, i, Window(), s);
    }

    method UnpackScBv(n: nat) returns (a: Bits)
      requires Valid() && 0 < n && unpackIndex + n <= bits.Length
      modifies `unpackIndex
      ensures unpackIndex == old(unpackIndex) + n && a == bits[old(unpackIndex)..unpackIndex]
      ensures unpackIndex <= packIndex ==> Valid() && a == old(Window())[..n] && Window() == old(Window())[n..]
    {
      a := bits[unpackIndex..unpackIndex + n];
      IncUnpackIndex(n);
    }

    /** The bit-by-bit reader of the SystemC integer types agrees with the range reader. */
    method UnpackScInt(n: nat) returns (a: Bits)
      requires Valid() && 0 < n && unpackIndex + n <= bits.Length
      modifies `unpackIndex
      ensures unpackIndex == old(unpackIndex) + n && a == bits[old(unpackIndex)..unpackIndex]
      ensures unpackIndex <= packIndex ==> Valid() && a == old(Window())[..n] && Window() == old(Window())[n..]
    {
      a := [];
      for i := 0 to n
        invariant unpackIndex == old(unpackIndex) + i && a == bits[old(unpackIndex)..unpackIndex]
      {
        a := a + [bits[unpackIndex]];
        unpackIndex := unpackIndex + 1;
      }
    }

    /** Reads a value back, provided enough has been packed. */
    method UnpackValue(k: Kind) returns (v: Value)
      requires Valid() && unpackIndex <= packIndex && WellFormed(k) && DecodeValue(Cfg(), k, Window()).Ok?
      modifies `unpackIndex
      ensures Valid() && unpackIndex <= packIndex
      ensures DecodeValue(Cfg(), k, old(Window())) == Ok(v, Window())
      decreases k, 0
    {
      hide DecodeString, DecodeElements, BitsToReal;
      match k
      case KBool =>
        var b := UnpackBool();
        v := VBool(b);
        assert Window() == old(Window())[1..];
      case KInt(width, signed) =>
        var i := UnpackInt(width, signed);
        v := VInt(i);
      case KReal =>
        var r := UnpackReal();
        v := VReal(r);
      case KBits(n) =>
        var a := UnpackScBv(n);
        v := VBits(a);
      case KString =>
        var s := UnpackString(-1);
        v := VString(s);
      case KVector(e) =>
        var n := UnpackInt(32, true);
        var a := UnpackElements(e, if n < 0 then 0 else n);
        v := VVector(a);
    }

    method UnpackElements(e: Kind, n: nat) returns (a: seq<Value>)
      requires Valid() && unpackIndex <= packIndex && WellFormed(e)
      requires DecodeElements(Cfg(), e, n, Window()).Ok?
      modifies `unpackIndex
      ensures Valid() && unpackIndex <= packIndex
      ensures DecodeElements(Cfg(), e, n, old(Window())) == Ok(a, Window())
      decreases e, 1
    {
      hide DecodeValue, Packer.Window, Packer.Valid;
      a := [];
      ghost var whole := DecodeElements(Cfg(), e, n, Window());
      assert a + whole.value == whole.value;
      for i := 0 to n
        invariant Valid() && unpackIndex <= packIndex
        invariant DecodeElements(Cfg(), e, n - i, Window()).Ok?
        invariant whole == var r := DecodeElements(Cfg(), e, n - i, Window()); Ok(a + r.value, r.rest)
      {
        ghost var r := DecodeElements(Cfg(), e, n - i, Window());
        FirstDecoded(Cfg(), e, n - i, Window());
        var t := UnpackValue(e);
        ConcatAssoc(a, [t], r.value[1..]);
        a := a + [t];
      }
      assert a + [] == a;
    }

    // ----- objects

    method PackField(f: Field<UvmObject>, ghost U: set<UvmObject>, ghost g: Graph<UvmObject>)
      requires Valid() && Holds(U, g) && Closed(g) && FieldsOk(g, [f])
      modifies `packIndex, `packed, `size, `maxSize, `bits, bits, scope, status
      ensures Valid() && (bits == old(bits) || fresh(bits))
      ensures packed == old(packed) + EncodeField(Cfg(), g, f, old(status.cycleCheck))
      ensures status.cycleCheck == old(status.cycleCheck)
      ensures PlainNames(U) ==> scope.stack == old(scope.stack)
      decreases |U - status.cycleCheck|, 1
    {
      hide EncodeObject, EncodeValue, Valid, Closed, Holds, PlainNames;
      assert f == [f][0];
      HeldKeys(U, g);
      match f
      case Leaf(k, v) => PackValue(k, v);
      case Child(o) => PackObject(o, U, g);
    }

    /** Packs an object, its header first; nothing if it is being packed already. */
    method PackObject(val: UvmObject, ghost U: set<UvmObject>, ghost g: Graph<UvmObject>)
      requires Valid() && val in U && Holds(U, g) && Closed(g)
      modifies `packIndex, `packed, `size, `maxSize, `bits, bits, scope, status
      ensures val in g && Valid() && (bits == old(bits) || fresh(bits))
      ensures packed == old(packed) + EncodeObject(Cfg(), g, val, old(status.cycleCheck))
      ensures status.cycleCheck == old(status.cycleCheck)
      ensures PlainNames(U) ==> scope.stack == old(scope.stack)
      decreases |U - status.cycleCheck|, 0
    {
      hide EncodeObject, EncodeFields, Valid, Closed, Holds, PlainNames;
      ghost var open := status.cycleCheck;
      HeldKeys(U, g);
      UnfoldObject(Cfg(), g, val, open);
      if val in status.cycleCheck {
        return;
      }
      SmallerSet(U - (open + {val}), U - open);
      status.cycleCheck := status.cycleCheck + {val};
      PackEntered(val, U, g);
      status.cycleCheck := status.cycleCheck - {val};
      assert open + {val} - {val} == open;
    }

    /** The header and, unless objects are packed by reference, the object itself. */
    method PackEntered(val: UvmObject, ghost U: set<UvmObject>, ghost g: Graph<UvmObject>)
      requires Valid() && val in U && Holds(U, g) && Closed(g)
      modifies `packIndex, `packed, `size, `maxSize, `bits, bits, scope, status
      ensures val in g && Valid() && (bits == old(bits) || fresh(bits))
      ensures FieldsOk(g, g[val].fields)
      ensures packed == old(packed) + (Header(Cfg()) +
                (if byReference then [] else EncodeFields(Cfg(), g, g[val].fields, old(status.cycleCheck))))
      ensures status.cycleCheck == old(status.cycleCheck)
      ensures PlainNames(U) ==> scope.stack == old(scope.stack)
      decreases |U - status.cycleCheck|, 4
    {
      hide EncodeFields, Valid, Closed, Holds, PlainNames;
      FieldsHeld(U, g, val);
      if useMetadata {
        Append(if byReference then NULL_HEADER else OBJECT_HEADER);
      }
      if !byReference {
        PackBody(val, U, g);
      }
    }

    /** The object's hook, run inside its scope. */
    method PackBody(val: UvmObject, ghost U: set<UvmObject>, ghost g: Graph<UvmObject>)
      requires Valid() && val in U && Holds(U, g) && Closed(g)
      modifies `packIndex, `packed, `size, `maxSize, `bits, bits, scope, status
      ensures val in g && Valid() && (bits == old(bits) || fresh(bits))
      ensures FieldsOk(g, g[val].fields)
      ensures packed == old(packed) + EncodeFields(Cfg(), g, g[val].fields, old(status.cycleCheck))
      ensures status.cycleCheck == old(status.cycleCheck)
      ensures PlainNames(U) ==> scope.stack == old(scope.stack)
      decreases |U - status.cycleCheck|, 3
    {
      hide EncodeFields, Valid, Closed, Holds, PlainNames, Scopes.AfterUp, Scopes.Bracketed;
      FieldsHeld(U, g, val);
      scope.Down(val.name);
      val.DoPack(this, U, g);
      scope.Up('.');
      PlainScope(U, val, old(scope.stack));
    }

    method UnpackField(o: UvmObject, i: nat, ghost U: set<UvmObject>, ghost h: Graph<UvmObject>)
      returns (ghost h': Graph<UvmObject>)
      requires Valid() && unpackIndex <= packIndex && o in U && Holds(U, h) && Readable(h) && Linked(h)
      requires o in h && h[o].fields == o.fields && i < |o.fields|
      requires DecodeField(Cfg(), h, o, i, status.cycleCheck, Window()).Ok?
      modifies `unpackIndex, scope, status, U`fields
      ensures Valid() && unpackIndex <= packIndex && Holds(U, h') && Readable(h') && Linked(h')
      ensures DecodeField(Cfg(), h, o, i, old(status.cycleCheck), old(Window())) == Ok(h', Window())
      ensures status.cycleCheck == old(status.cycleCheck)
      ensures PlainNames(U) ==> scope.stack == old(scope.stack)
      decreases |U - status.cycleCheck|, 1
    {
      hide DecodeObject, DecodeValue, Window, Valid, PlainNames;
      match o.fields[i]
      case Leaf(k, _) =>
        var v := UnpackValue(k);
        o.fields := o.fields[i := Leaf(k, v)];
        h' := SetLeaf(h, o, i, v);
        ShapesKeepReadable(h, h');
      case Child(c) =>
        h' := UnpackObject(c, U, h);
    }

    /** Unpacks into an object: header, then whatever its hook reads; nothing if it is being unpacked already. */
    method UnpackObject(val: UvmObject, ghost U: set<UvmObject>, ghost h: Graph<UvmObject>)
      returns (ghost h': Graph<UvmObject>)
      requires Valid() && unpackIndex <= packIndex && val in U && Holds(U, h) && Readable(h)
      requires val in h && DecodeObject(Cfg(), h, val, status.cycleCheck, Window()).Ok?
      modifies `unpackIndex, scope, status, U`fields
      ensures Valid() && unpackIndex <= packIndex && Holds(U, h') && Readable(h') && Linked(h')
      ensures DecodeObject(Cfg(), h, val, old(status.cycleCheck), old(Window())) == Ok(h', Window())
      ensures status.cycleCheck == old(status.cycleCheck)
      ensures PlainNames(U) ==> scope.stack == old(scope.stack)
      decreases |U - status.cycleCheck|, 0
    {
      hide DecodeFields, DecodeObject, Entered, Window, Valid, PlainNames, Holds, Readable, Linked, SameShapes;
      h' := h;
      HeldFields(U, h, val);
      HeldKeys(U, h);
      ghost var open, w := status.cycleCheck, Window();
      OpenObject(Cfg(), h, val, open, w);
      if val in status.cycleCheck {
        return;
      }
      UnfoldDecodeObject(Cfg(), h, val, open, w);
      SmallerSet(U - (open + {val}), U - open);
      status.cycleCheck := status.cycleCheck + {val};
      h' := UnpackEntered(val, U, h);
      status.cycleCheck := status.cycleCheck - {val};
      assert open + {val} - {val} == open;
    }

    /** The header and, if it says so, the object itself. */
    method UnpackEntered(val: UvmObject, ghost U: set<UvmObject>, ghost h: Graph<UvmObject>)
      returns (ghost h': Graph<UvmObject>)
      requires Valid() && unpackIndex <= packIndex && val in U && Holds(U, h) && Readable(h)
      requires val in h && (useMetadata ==> |Window()| >= 4)
      requires Entered(Cfg(), h, val, status.cycleCheck, Window()).Ok?
      modifies `unpackIndex, scope, status, U`fields
      ensures Valid() && unpackIndex <= packIndex && Holds(U, h') && Readable(h') && Linked(h')
      ensures Entered(Cfg(), h, val, old(status.cycleCheck), old(Window())) == Ok(h', Window())
      ensures status.cycleCheck == old(status.cycleCheck)
      ensures PlainNames(U) ==> scope.stack == old(scope.stack)
      decreases |U - status.cycleCheck|, 4
    {
      hide DecodeFields, PlainNames, Holds;
      var isNonNull := true;
      h' := h;
      ghost var w := Window();
      if useMetadata {
        isNonNull := NonNull(bits[unpackIndex..unpackIndex + 4]);
        assert bits[unpackIndex..unpackIndex + 4] == w[..4];
        IncUnpackIndex(4);
      }
      if isNonNull {
        h' := UnpackBody(val, U, h);
      }
    }

    /** The object's hook, run inside its scope. */
    method UnpackBody(val: UvmObject, ghost U: set<UvmObject>, ghost h: Graph<UvmObject>)
      returns (ghost h': Graph<UvmObject>)
      requires Valid() && unpackIndex <= packIndex && val in U && Holds(U, h) && Readable(h)
      requires val in h && DecodeFields(Cfg(), h, val, 0, status.cycleCheck, Window()).Ok?
      modifies `unpackIndex, scope, status, U`fields
      ensures Valid() && unpackIndex <= packIndex && Holds(U, h') && Readable(h')
      ensures DecodeFields(Cfg(), h, val, 0, old(status.cycleCheck), old(Window())) == Ok(h', Window())
      ensures status.cycleCheck == old(status.cycleCheck)
      ensures PlainNames(U) ==> scope.stack == old(scope.stack)
      decreases |U - status.cycleCheck|, 3
    {
      hide DecodeFields, Window, Valid, Holds, PlainNames, Scopes.AfterUp, Scopes.Bracketed;
      scope.Down(val.name);
      h' := val.DoUnpack(this, U, h);
      scope.Up('.');
      PlainScope(U, val, old(scope.stack));
    }
  }

  /** The objects of `U`, their fields as recorded in `g`. */
  ghost predicate Holds(U: set<UvmObject>, g: Graph<UvmObject>)
    reads U
  {
    g.Keys == U && forall o :: o in U ==> g[o] == Node(o.name, o.fields)
  }

  lemma HeldKeys(U: set<UvmObject>, g: Graph<UvmObject>)
    requires Holds(U, g)
    ensures g.Keys == U
  {
  }

  lemma HeldFields(U: set<UvmObject>, g: Graph<UvmObject>, o: UvmObject)
    requires Holds(U, g) && o in U
    ensures o in g && g[o].fields == o.fields
    ensures Readable(g) ==> Linked(g)
  {
  }

  lemma FieldsHeld(U: set<UvmObject>, g: Graph<UvmObject>, o: UvmObject)
    requires Holds(U, g) && o in U
    ensures o in g && g[o].fields == o.fields && g.Keys == U
    ensures Closed(g) ==> FieldsOk(g, o.fields)
  {
  }

  ghost predicate PlainNames(U: set<UvmObject>) {
    forall o :: o in U ==> !Scopes.Bracketed(o.name)
  }

  lemma PlainScope(U: set<UvmObject>, o: UvmObject, stack: seq<string>)
    requires o in U
    ensures PlainNames(U) ==> Scopes.AfterUp(stack + [o.name], '.') == stack
  {
    Scopes.DownUpExact(stack, o.name, '.');
  }
}
