/** Packing one object and unpacking the outcome into another: what the two halves of the library promise together. */
module PackUnpack {
  import opened Bits
  import opened Codec
  import opened ObjectGraph
  import opened ObjectRoundTrip
  import opened Packing

  /** `g` records the packable objects of `U` and `h` those of `V`, whose hooks visit the same things in the same
      order; `phi` says which corresponds to which. */
  ghost predicate Ready(packer: Packer, a: UvmObject, b: UvmObject, U: set<UvmObject>, g: Graph<UvmObject>,
                        V: set<UvmObject>, h: Graph<UvmObject>, phi: map<UvmObject, UvmObject>)
    reads packer, packer.bits, packer.status, U, V
  {
    && packer.Valid() && packer.status.cycleCheck == {} && Marked(packer.Cfg())
    && a in U && Holds(U, g) && PackableGraph(packer.Cfg(), g)
    && b in V && Holds(V, h) && Readable(h)
    && Isomorphic(g, h, phi) && phi[a] == b
  }

  /** From `h` to `h'` every object covered has the values of `g`, and nothing else has changed. */
  ghost predicate Transferred(cfg: Config, g: Graph<UvmObject>, h: Graph<UvmObject>, h': Graph<UvmObject>,
                              phi: map<UvmObject, UvmObject>, a: UvmObject)
  {
    && Isomorphic(g, h', phi) && h'.Keys == h.Keys
    && (forall x :: x in g && Covered(cfg, g, a, x) ==> Restored(g, h', phi, x))
    && (forall m :: m in h && (forall x :: x in g && Covered(cfg, g, a, x) ==> m != phi[x]) ==> h'[m] == h[m])
  }

  /** Sharing and cycles included, unpacking the packed bits restores every leaf of every object reachable, or by
      reference of the top one, and reads every bit. */
  method Transfer(a: UvmObject, b: UvmObject, packer: Packer, ghost U: set<UvmObject>, ghost g: Graph<UvmObject>,
                  ghost V: set<UvmObject>, ghost h: Graph<UvmObject>, ghost phi: map<UvmObject, UvmObject>)
    returns (ghost h': Graph<UvmObject>)
    requires Ready(packer, a, b, U, g, V, h, phi)
    modifies packer`packIndex, packer`packed, packer`unpackIndex, packer`size, packer`maxSize, packer`bits,
             packer.bits, packer.scope, packer.status, V`fields
    ensures packer.Valid() && Holds(V, h') && Transferred(packer.Cfg(), g, h, h', phi, a)
    ensures packer.unpackIndex == packer.packIndex && packer.status.cycleCheck == {}
  {
    hide Holds, Isomorphic, EncodeFields, DecodeFields, Restored, Covered;
    HeldKeys(U, g);
    TransferBits(packer.Cfg(), g, h, phi, a, []);
    var stream, packed := a.Pack([], packer, U, g);
    assert stream == EncodeFields(packer.Cfg(), g, g[a].fields, {}) + [];
    var unpacked;
    unpacked, h' := b.Unpack(stream, packer, V, h);
  }

  lemma TransferBits(cfg: Config, g: Graph<UvmObject>, h: Graph<UvmObject>, phi: map<UvmObject, UvmObject>,
                     a: UvmObject, rest: Bits)
    requires PackableGraph(cfg, g) && Marked(cfg) && Isomorphic(g, h, phi) && a in g
    ensures FieldsOk(g, g[a].fields) && phi[a] in h && Linked(h)
    ensures var r := DecodeFields(cfg, h, phi[a], 0, {}, EncodeFields(cfg, g, g[a].fields, {}) + rest);
            r.Ok? && r.rest == rest && Transferred(cfg, g, h, r.value, phi, a)
  {
    hide EncodeFields, DecodeFields, Restored, Covered;
    PackUnpackRestores(cfg, g, h, phi, a, rest);
  }

  lemma TransferPadded(cfg: Config, g: Graph<UvmObject>, h: Graph<UvmObject>, phi: map<UvmObject, UvmObject>,
                       a: UvmObject, unit: nat, us: seq<nat>)
    requires PackableGraph(cfg, g) && Marked(cfg) && Isomorphic(g, h, phi) && a in g && unit > 0
    requires FieldsOk(g, g[a].fields)
    requires PaddedUnits(cfg, unit, EncodeFields(cfg, g, g[a].fields, {}), us)
    ensures phi[a] in h && Linked(h)
    ensures var r := DecodeFields(cfg, h, phi[a], 0, {}, FromUnits(cfg.bigEndian, unit, us));
            r.Ok? && |r.rest| < unit && Transferred(cfg, g, h, r.value, phi, a)
  {
    hide EncodeFields, DecodeFields, Transferred, ToUnits, FromUnits;
    var b := EncodeFields(cfg, g, g[a].fields, {});
    var padding: Bits :| |b + padding| == RoundUp(|b|, unit) && us == ToUnits(cfg.bigEndian, unit, b + padding);
    UnitsRoundTrip(cfg.bigEndian, unit, b + padding, |b + padding| / unit);
    TransferBits(cfg, g, h, phi, a, padding);
  }

  /** The same through bytes or words; what is left unread is the padding of the last one. */
  method TransferUnits(unit: nat, a: UvmObject, b: UvmObject, packer: Packer, ghost U: set<UvmObject>,
                       ghost g: Graph<UvmObject>, ghost V: set<UvmObject>, ghost h: Graph<UvmObject>,
                       ghost phi: map<UvmObject, UvmObject>)
    returns (ghost h': Graph<UvmObject>)
    requires Ready(packer, a, b, U, g, V, h, phi) && (unit == 8 || unit == 32)
    requires a in g && EncodeFields(packer.Cfg(), g, g[a].fields, {}) != []
    modifies packer`packIndex, packer`packed, packer`unpackIndex, packer`size, packer`maxSize, packer`bits,
             packer.bits, packer.scope, packer.status, V`fields
    ensures packer.Valid() && Holds(V, h') && Transferred(packer.Cfg(), g, h, h', phi, a)
    ensures packer.unpackIndex <= packer.packIndex && |packer.Window()| < unit
  {
    hide Holds, Isomorphic, EncodeFields, DecodeFields, Restored, Covered, ToUnits, FromUnits;
    HeldKeys(U, g);
    ghost var cfg := packer.Cfg();
    var us, packed := a.PackUnits(unit, [], packer, U, g);
    assert us[0..] == us;
    hide Transferred, PaddedUnits, Packer.Window, Packer.Valid, Readable, PackableGraph;
    TransferPadded(cfg, g, h, phi, a, unit, us);
    var unpacked;
    unpacked, h' := b.UnpackUnits(unit, us, packer, V, h);
  }
}
