/** Packing whole object graphs: sharing and cycles allowed, back edges skipped by the cycle check.

    `N` is the identity of an object (a pointer in the program). An object is the list of things its
    do_pack and do_unpack hooks visit, in order: typed leaves and references to other objects. */
module ObjectGraph {
  import opened Bits
  import opened Sequences
  import opened Codec

  datatype Field<N> = Leaf(kind: Kind, value: Value) | Child(target: N)

  datatype Node<N> = Node(name: string, fields: seq<Field<N>>)

  type Graph<N> = map<N, Node<N>>

  ghost predicate FieldsOk<N>(g: Graph<N>, fields: seq<Field<N>>) {
    forall j :: 0 <= j < |fields| ==>
      match fields[j]
      case Leaf(k, v) => HasKind(v, k)
      case Child(n) => n in g
  }

  /** Leaves have their declared kind and references stay inside the graph. */
  ghost predicate Closed<N>(g: Graph<N>) {
    forall n :: n in g ==> FieldsOk(g, g[n].fields)
  }

  const NULL_HEADER: Bits := [false, false, false, false]
  const OBJECT_HEADER: Bits := [true, false, false, false]

  // ----- writing

  function Header(cfg: Config): Bits {
    if !cfg.useMetadata then [] else if cfg.byReference then NULL_HEADER else OBJECT_HEADER
  }

  /** What pack_object(n) writes while the objects in `open` are being packed. */
  ghost function EncodeObject<N>(cfg: Config, g: Graph<N>, n: N, open: set<N>): Bits
    requires Closed(g) && n in g
    decreases |g.Keys - open|, 0
  {
    if n in open then []
    else
      assert g.Keys - (open + {n}) < g.Keys - open;
      SmallerSet(g.Keys - (open + {n}), g.Keys - open);
      Header(cfg) + if cfg.byReference then [] else EncodeFields(cfg, g, g[n].fields, open + {n})
  }

  ghost function EncodeFields<N>(cfg: Config, g: Graph<N>, fields: seq<Field<N>>, open: set<N>): Bits
    requires Closed(g) && FieldsOk(g, fields)
    decreases |g.Keys - open|, |fields| + 1
  {
    if fields == [] then [] else EncodeField(cfg, g, fields[0], open) + EncodeFields(cfg, g, fields[1..], open)
  }

  ghost function EncodeField<N>(cfg: Config, g: Graph<N>, f: Field<N>, open: set<N>): Bits
    requires Closed(g) && FieldsOk(g, [f])
    decreases |g.Keys - open|, 1
  {
    assert f == [f][0];
    match f
    case Leaf(k, v) => EncodeValue(cfg, k, v)
    case Child(n) => EncodeObject(cfg, g, n, open)
  }

  lemma UnfoldObject<N>(cfg: Config, g: Graph<N>, n: N, open: set<N>)
    requires Closed(g) && n in g
    ensures FieldsOk(g, g[n].fields)
    ensures EncodeObject(cfg, g, n, open)
         == (if n in open then []
             else Header(cfg) + (if cfg.byReference then [] else EncodeFields(cfg, g, g[n].fields, open + {n})))
  {
  }

  lemma EncodeNothing<N>(cfg: Config, g: Graph<N>, open: set<N>)
    requires Closed(g)
    ensures EncodeFields(cfg, g, [], open) == []
  {
  }

  lemma {:induction false} EncodeLastField<N>(cfg: Config, g: Graph<N>, fields: seq<Field<N>>, f: Field<N>, open: set<N>)
    requires Closed(g) && FieldsOk(g, fields + [f])
    ensures FieldsOk(g, fields) && FieldsOk(g, [f])
    ensures EncodeFields(cfg, g, fields + [f], open)
         == EncodeFields(cfg, g, fields, open) + EncodeField(cfg, g, f, open)
    decreases |fields|
  {
    hide EncodeField;
    assert (fields + [f])[|fields|] == f;
    assert forall j :: 0 <= j < |fields| ==> (fields + [f])[j] == fields[j];
    if fields == [] {
      assert fields + [f] == [f] && [f][1..] == [];
    } else {
      assert (fields + [f])[1..] == fields[1..] + [f];
      EncodeLastField(cfg, g, fields[1..], f, open);
      ConcatAssoc(EncodeField(cfg, g, fields[0], open), EncodeFields(cfg, g, fields[1..], open),
                  EncodeField(cfg, g, f, open));
    }
  }

  lemma {:induction false} FieldsConcat<N>(cfg: Config, g: Graph<N>, a: seq<Field<N>>, b: seq<Field<N>>, open: set<N>)
    requires Closed(g) && FieldsOk(g, a + b)
    ensures FieldsOk(g, a) && FieldsOk(g, b)
    ensures EncodeFields(cfg, g, a + b, open) == EncodeFields(cfg, g, a, open) + EncodeFields(cfg, g, b, open)
    decreases |b|
  {
    hide EncodeField, EncodeFields, Closed;
    assert forall j :: 0 <= j < |a| ==> (a + b)[j] == a[j];
    assert forall j :: 0 <= j < |b| ==> (a + b)[|a| + j] == b[j];
    if b == [] {
      EncodeNothing(cfg, g, open);
      assert a + b == a;
    } else {
      var front, f := b[..|b| - 1], b[|b| - 1];
      assert b == front + [f] && a + b == (a + front) + [f];
      EncodeLastField(cfg, g, a + front, f, open);
      EncodeLastField(cfg, g, front, f, open);
      FieldsConcat(cfg, g, a, front, open);
      ConcatAssoc(EncodeFields(cfg, g, a, open), EncodeFields(cfg, g, front, open), EncodeField(cfg, g, f, open));
    }
  }

  /** Field `i` is packed behind the fields before it and in front of those after it. */
  lemma FieldLayout<N>(cfg: Config, g: Graph<N>, fields: seq<Field<N>>, i: nat, open: set<N>)
    requires Closed(g) && FieldsOk(g, fields) && i < |fields|
    ensures FieldsOk(g, fields[..i]) && FieldsOk(g, fields[i + 1..])
    ensures var before, after := EncodeFields(cfg, g, fields[..i], open), EncodeFields(cfg, g, fields[i + 1..], open);
            EncodeFields(cfg, g, fields, open) == before + (EncodeFields(cfg, g, [fields[i]], open) + after)
    ensures FieldsOk(g, [fields[i]])
  {
    hide EncodeFields, Closed, FieldsOk;
    assert fields == fields[..i] + fields[i..] && fields[i..] == [fields[i]] + fields[i + 1..];
    FieldsConcat(cfg, g, fields[..i], fields[i..], open);
    FieldsConcat(cfg, g, [fields[i]], fields[i + 1..], open);
  }

  /** A leaf is packed as its value; a reference as nothing if its object is being packed, and else as the header, if
      there is metadata, and unless by reference as the fields of the object, whose own references find it open. */
  lemma OneFieldLayout<N>(cfg: Config, g: Graph<N>, f: Field<N>, open: set<N>)
    requires Closed(g) && FieldsOk(g, [f])
    ensures f.Leaf? ==> HasKind(f.value, f.kind) && EncodeFields(cfg, g, [f], open) == EncodeValue(cfg, f.kind, f.value)
    ensures f.Child? ==>
              && f.target in g && FieldsOk(g, g[f.target].fields)
              && EncodeFields(cfg, g, [f], open) ==
                   if f.target in open then []
                   else (if cfg.useMetadata then [!cfg.byReference, false, false, false] else [])
                        + if cfg.byReference then [] else EncodeFields(cfg, g, g[f.target].fields, open + {f.target})
  {
    assert f == [f][0] && [] + [f] == [f];
    EncodeNothing(cfg, g, open);
    EncodeLastField(cfg, g, [], f, open);
    if f.Child? {
      hide EncodeFields, EncodeObject;
      UnfoldObject(cfg, g, f.target, open);
    }
  }

  lemma SmallerSet<T>(a: set<T>, b: set<T>)
    requires a < b
    ensures |a| < |b|
  {
    assert b == a + (b - a);
    assert |b - a| > 0;
  }

  // ----- reading

  /** Two nodes whose hooks make the same calls. */
  ghost predicate SameShape<N>(a: Node<N>, b: Node<N>) {
    && a.name == b.name
    && |a.fields| == |b.fields|
    && forall j :: 0 <= j < |a.fields| ==>
         match a.fields[j]
         case Leaf(k, _) => b.fields[j].Leaf? && b.fields[j].kind == k
         case Child(n) => b.fields[j] == a.fields[j]
  }

  /** Reading only ever changes leaf values. */
  ghost predicate SameShapes<N>(g: Graph<N>, h: Graph<N>) {
    g.Keys == h.Keys && forall n :: n in g ==> SameShape(g[n], h[n])
  }

  ghost predicate Linked<N>(h: Graph<N>) {
    forall n :: n in h ==> forall j :: 0 <= j < |h[n].fields| && h[n].fields[j].Child? ==> h[n].fields[j].target in h
  }

  function SetLeaf<N>(h: Graph<N>, m: N, i: nat, v: Value): (h': Graph<N>)
    requires m in h && i < |h[m].fields| && h[m].fields[i].Leaf?
    ensures h'.Keys == h.Keys
  {
    h[m := Node(h[m].name, h[m].fields[i := Leaf(h[m].fields[i].kind, v)])]
  }

  lemma SetLeafShapes<N>(h: Graph<N>, m: N, i: nat, v: Value)
    requires Linked(h) && m in h && i < |h[m].fields| && h[m].fields[i].Leaf?
    ensures SameShapes(h, SetLeaf(h, m, i, v))
    ensures Linked(SetLeaf(h, m, i, v))
  {
    var h' := SetLeaf(h, m, i, v);
    assert SameShape(h[m], h'[m]);
    forall n | n in h
      ensures SameShape(h[n], h'[n])
    {
    }
    ShapesKeepLinks(h, h');
  }

  lemma ShapesKeepLinks<N>(h: Graph<N>, h': Graph<N>)
    requires Linked(h) && SameShapes(h, h')
    ensures Linked(h')
  {
    forall n, j | n in h' && 0 <= j < |h'[n].fields| && h'[n].fields[j].Child?
      ensures h'[n].fields[j].target in h'
    {
      assert SameShape(h[n], h'[n]);
      assert h[n].fields[j] == h'[n].fields[j];
    }
  }

  lemma SameShapesTrans<N>(a: Graph<N>, b: Graph<N>, c: Graph<N>)
    requires SameShapes(a, b) && SameShapes(b, c)
    ensures SameShapes(a, c)
  {
    forall n | n in a
      ensures SameShape(a[n], c[n])
    {
      assert SameShape(a[n], b[n]) && SameShape(b[n], c[n]);
      forall j | 0 <= j < |a[n].fields|
        ensures match a[n].fields[j]
                case Leaf(k, _) => c[n].fields[j].Leaf? && c[n].fields[j].kind == k
                case Child(t) => c[n].fields[j] == a[n].fields[j]
      {
        assert a[n].fields[j].Leaf? ==> b[n].fields[j].Leaf? && b[n].fields[j].kind == a[n].fields[j].kind;
      }
    }
  }

  /** The header as a signed 4-bit number is positive. */
  predicate NonNull(header: Bits)
    requires |header| == 4
  {
    !header[3] && (header[0] || header[1] || header[2])
  }

  /** The headers are 1 and 0, and the reader goes on just when the signed 4-bit number is positive. */
  lemma HeaderLayout(header: Bits)
    requires |header| == 4
    ensures FromBits(OBJECT_HEADER) == 1 && FromBits(NULL_HEADER) == 0
    ensures NonNull(header) <==> FromPattern(FromBits(header), 4, true) > 0
  {
    Pow2Values();
    assert Pow2(3) == 8;
    NibbleValue(OBJECT_HEADER);
    NibbleValue(NULL_HEADER);
    NibbleValue(header);
  }

  lemma NibbleValue(b: Bits)
    requires |b| == 4
    ensures FromBits(b) == (if b[0] then 1 else 0) + (if b[1] then 2 else 0) + (if b[2] then 4 else 0) + (if b[3] then 8 else 0)
  {
    assert FromBits(b[3..]) == (if b[3] then 1 else 0) + 2 * FromBits(b[3..][1..]);
    assert b[2..][1..] == b[3..] && b[1..][1..] == b[2..];
    assert FromBits(b[2..]) == (if b[2] then 1 else 0) + 2 * FromBits(b[3..]);
    assert FromBits(b[1..]) == (if b[1] then 1 else 0) + 2 * FromBits(b[2..]);
  }

  /** What unpack_object(m) does to the graph `h` when the bits `w` remain. */
  ghost function DecodeObject<N>(cfg: Config, h: Graph<N>, m: N, open: set<N>, w: Bits): (r: Parsed<Graph<N>>)
    requires Linked(h) && m in h
    ensures r.Ok? ==> SameShapes(h, r.value)
    decreases |h.Keys - open|, 0
  {
    if m in open then Ok(h, w)
    else if cfg.useMetadata && |w| < 4 then Fail
    else if cfg.useMetadata && !NonNull(w[..4]) then Ok(h, w[4..])
    else
      assert h.Keys - (open + {m}) < h.Keys - open;
      SmallerSet(h.Keys - (open + {m}), h.Keys - open);
      DecodeFields(cfg, h, m, 0, open + {m}, if cfg.useMetadata then w[4..] else w)
  }

  ghost function DecodeFields<N>(cfg: Config, h: Graph<N>, m: N, i: nat, open: set<N>, w: Bits)
    : (r: Parsed<Graph<N>>)
    requires Linked(h) && m in h && i <= |h[m].fields|
    ensures r.Ok? ==> SameShapes(h, r.value)
    decreases |h.Keys - open|, |h[m].fields| - i + 1
  {
    if i == |h[m].fields| then Ok(h, w)
    else
      match DecodeField(cfg, h, m, i, open, w)
      case Fail => Fail
      case Ok(h', rest) =>
        assert SameShape(h[m], h'[m]);
        ShapesKeepLinks(h, h');
        var r := DecodeFields(cfg, h', m, i + 1, open, rest);
        if r.Ok? then SameShapesTrans(h, h', r.value); r else r
  }

  ghost function DecodeField<N>(cfg: Config, h: Graph<N>, m: N, i: nat, open: set<N>, w: Bits)
    : (r: Parsed<Graph<N>>)
    requires Linked(h) && m in h && i < |h[m].fields|
    ensures r.Ok? ==> SameShapes(h, r.value)
    decreases |h.Keys - open|, 1
  {
    match h[m].fields[i]
    case Leaf(k, _) =>
      (match DecodeValue(cfg, k, w)
       case Fail => Fail
       case Ok(v, rest) => SetLeafShapes(h, m, i, v); Ok(SetLeaf(h, m, i, v), rest))
    case Child(n) => DecodeObject(cfg, h, n, open, w)
  }

  /** Every leaf has a kind the packer supports and every reference stays inside the graph. */
  ghost predicate Readable<N>(h: Graph<N>) {
    Linked(h) &&
    forall n, j :: n in h && 0 <= j < |h[n].fields| && h[n].fields[j].Leaf? ==> WellFormed(h[n].fields[j].kind)
  }

  lemma ShapesKeepReadable<N>(h: Graph<N>, h': Graph<N>)
    requires Readable(h) && SameShapes(h, h')
    ensures Readable(h')
  {
    ShapesKeepLinks(h, h');
    forall n, j | n in h' && 0 <= j < |h'[n].fields| && h'[n].fields[j].Leaf?
      ensures WellFormed(h'[n].fields[j].kind)
    {
      assert SameShape(h[n], h'[n]);
      assert h[n].fields[j].Leaf? && h[n].fields[j].kind == h'[n].fields[j].kind;
    }
  }

  lemma NextField<N>(cfg: Config, h: Graph<N>, m: N, i: nat, open: set<N>, w: Bits)
    requires Linked(h) && m in h && i <= |h[m].fields|
    requires DecodeFields(cfg, h, m, i, open, w).Ok?
    ensures i == |h[m].fields| ==> DecodeFields(cfg, h, m, i, open, w) == Ok(h, w)
    ensures i < |h[m].fields| ==>
              var f := DecodeField(cfg, h, m, i, open, w);
              && f.Ok? && Linked(f.value) && m in f.value && |f.value[m].fields| == |h[m].fields|
              && DecodeFields(cfg, h, m, i, open, w) == DecodeFields(cfg, f.value, m, i + 1, open, f.rest)
  {
    if i < |h[m].fields| {
      var f := DecodeField(cfg, h, m, i, open, w);
      assert SameShape(h[m], f.value[m]);
      ShapesKeepLinks(h, f.value);
    }
  }

  /** Reading an object that is not open. */
  ghost function Entered<N>(cfg: Config, h: Graph<N>, m: N, open: set<N>, w: Bits): Parsed<Graph<N>>
    requires Linked(h) && m in h && (cfg.useMetadata ==> |w| >= 4)
  {
    if cfg.useMetadata && !NonNull(w[..4]) then Ok(h, w[4..])
    else DecodeFields(cfg, h, m, 0, open, if cfg.useMetadata then w[4..] else w)
  }

  lemma UnfoldDecodeObject<N>(cfg: Config, h: Graph<N>, m: N, open: set<N>, w: Bits)
    requires Linked(h) && m in h && DecodeObject(cfg, h, m, open, w).Ok? && m !in open
    ensures cfg.useMetadata ==> |w| >= 4
    ensures DecodeObject(cfg, h, m, open, w) == Entered(cfg, h, m, open + {m}, w)
  {
  }

  lemma OpenObject<N>(cfg: Config, h: Graph<N>, m: N, open: set<N>, w: Bits)
    requires Linked(h) && m in h
    ensures m in open ==> DecodeObject(cfg, h, m, open, w) == Ok(h, w)
  {
  }

  // ----- the objects a traversal enters

  ghost function VisitsObject<N>(cfg: Config, g: Graph<N>, n: N, open: set<N>): (s: set<N>)
    requires Closed(g) && n in g
    ensures s <= g.Keys
    decreases |g.Keys - open|, 0
  {
    if n in open || cfg.byReference then {}
    else
      assert g.Keys - (open + {n}) < g.Keys - open;
      SmallerSet(g.Keys - (open + {n}), g.Keys - open);
      {n} + VisitsFields(cfg, g, g[n].fields, open + {n})
  }

  ghost function VisitsFields<N>(cfg: Config, g: Graph<N>, fields: seq<Field<N>>, open: set<N>): (s: set<N>)
    requires Closed(g) && FieldsOk(g, fields)
    ensures s <= g.Keys
    decreases |g.Keys - open|, |fields| + 1
  {
    if fields == [] then {} else VisitsField(cfg, g, fields[0], open) + VisitsFields(cfg, g, fields[1..], open)
  }

  ghost function VisitsField<N>(cfg: Config, g: Graph<N>, f: Field<N>, open: set<N>): (s: set<N>)
    requires Closed(g) && FieldsOk(g, [f])
    ensures s <= g.Keys
    decreases |g.Keys - open|, 1
  {
    assert f == [f][0];
    if f.Child? then VisitsObject(cfg, g, f.target, open) else {}
  }

  // ----- unpacking into an isomorphic graph

  ghost predicate Mirrors<N, M>(a: Node<N>, b: Node<M>, phi: map<N, M>) {
    && |a.fields| == |b.fields|
    && forall j :: 0 <= j < |a.fields| ==>
         match a.fields[j]
         case Leaf(k, _) => b.fields[j].Leaf? && b.fields[j].kind == k
         case Child(n) => n in phi && b.fields[j] == Child(phi[n])
  }

  /** `phi` maps the objects of `g` one-to-one onto objects of `h` whose hooks make the same calls;
      leaf values are free. */
  ghost predicate Isomorphic<N, M>(g: Graph<N>, h: Graph<M>, phi: map<N, M>) {
    && phi.Keys == g.Keys
    && (forall a, b :: a in phi && b in phi && phi[a] == phi[b] ==> a == b)
    && (forall n :: n in g ==> phi[n] in h && Mirrors(g[n], h[phi[n]], phi))
    && Linked(h)
  }

  ghost function Image<N, M>(phi: map<N, M>, s: set<N>): set<M>
    requires s <= phi.Keys
  {
    set n | n in s :: phi[n]
  }

  /** Leaf `j` of object `x` has the value it has in `g`. */
  ghost predicate LeafRestored<N, M>(g: Graph<N>, h: Graph<M>, phi: map<N, M>, x: N, j: nat)
    requires Isomorphic(g, h, phi) && x in g && j < |g[x].fields|
  {
    assert Mirrors(g[x], h[phi[x]], phi);
    g[x].fields[j].Leaf? ==> h[phi[x]].fields[j].value == g[x].fields[j].value
  }

  ghost predicate Restored<N, M>(g: Graph<N>, h: Graph<M>, phi: map<N, M>, x: N)
    requires Isomorphic(g, h, phi) && x in g
  {
    forall j :: 0 <= j < |g[x].fields| ==> LeafRestored(g, h, phi, x, j)
  }

  /** From `h` to `h'` no restored leaf is lost, and only images of `touched` change at all. */
  ghost predicate Progress<N, M>(g: Graph<N>, h: Graph<M>, h': Graph<M>, phi: map<N, M>, touched: set<N>)
    requires Isomorphic(g, h, phi) && touched <= g.Keys
  {
    && h'.Keys == h.Keys
    && Isomorphic(g, h', phi)
    && (forall x, j :: x in g && 0 <= j < |g[x].fields| && LeafRestored(g, h, phi, x, j)
          ==> LeafRestored(g, h', phi, x, j))
    && (forall m :: m in h && m !in Image(phi, touched) ==> h'[m] == h[m])
  }

  ghost predicate PackableGraph<N>(cfg: Config, g: Graph<N>) {
    Closed(g) &&
    forall n, j :: n in g && 0 <= j < |g[n].fields| && g[n].fields[j].Leaf?
      ==> Packable(cfg, g[n].fields[j].kind, g[n].fields[j].value)
  }

  /** References packed by value, or at least marked as not packed. */
  predicate Marked(cfg: Config) {
    cfg.byReference ==> cfg.useMetadata
  }

  /** Writing one leaf of `n` back into its image. */
  lemma LeafProgress<N, M>(g: Graph<N>, h: Graph<M>, phi: map<N, M>, n: N, i: nat)
    requires Closed(g) && Isomorphic(g, h, phi)
    requires n in g && i < |g[n].fields| && g[n].fields[i].Leaf?
    ensures Mirrors(g[n], h[phi[n]], phi)
    ensures Progress(g, h, SetLeaf(h, phi[n], i, g[n].fields[i].value), phi, {n})
    ensures LeafRestored(g, SetLeaf(h, phi[n], i, g[n].fields[i].value), phi, n, i)
  {
    var m := phi[n];
    assert Mirrors(g[n], h[m], phi);
    var h' := SetLeaf(h, m, i, g[n].fields[i].value);
    forall x | x in g
      ensures Mirrors(g[x], h'[phi[x]], phi)
    {
      assert Mirrors(g[x], h[phi[x]], phi);
    }
    assert m in Image(phi, {n});
  }

  lemma ProgressTrans<N, M>(g: Graph<N>, h: Graph<M>, h1: Graph<M>, h2: Graph<M>, phi: map<N, M>,
                            s: set<N>, t: set<N>, u: set<N>)
    requires Isomorphic(g, h, phi) && s <= u && t <= u && u <= g.Keys
    requires Progress(g, h, h1, phi, s) && Progress(g, h1, h2, phi, t)
    ensures Progress(g, h, h2, phi, u)
  {
    assert Image(phi, s) <= Image(phi, u) && Image(phi, t) <= Image(phi, u);
  }
}
