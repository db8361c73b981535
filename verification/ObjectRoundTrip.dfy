/** Unpacking what was packed restores every reachable object. */
module ObjectRoundTrip {
  import opened Bits
  import opened Codec
  import opened ObjectGraph

  /** The result of reading `n`'s fields from the `i`th on into its image. */
  ghost predicate Recovers<N, M>(g: Graph<N>, h: Graph<M>, phi: map<N, M>, n: N, i: nat, visited: set<N>,
                                 r: Parsed<Graph<M>>, rest: Bits)
    requires Isomorphic(g, h, phi) && n in g && visited <= g.Keys
  {
    && r.Ok? && r.rest == rest
    && Progress(g, h, r.value, phi, {n} + visited)
    && (forall j :: i <= j < |g[n].fields| ==> LeafRestored(g, r.value, phi, n, j))
    && (forall x :: x in visited ==> Restored(g, r.value, phi, x))
  }

  lemma {:induction false} FieldsRecover<N, M>(cfg: Config, g: Graph<N>, h: Graph<M>, phi: map<N, M>,
                                               n: N, i: nat, open: set<N>, rest: Bits)
    requires PackableGraph(cfg, g) && Marked(cfg) && Isomorphic(g, h, phi)
    requires n in g && i <= |g[n].fields| && open <= g.Keys
    ensures i <= |h[phi[n]].fields|
    ensures Recovers(g, h, phi, n, i, VisitsFields(cfg, g, g[n].fields[i..], open),
                     DecodeFields(cfg, h, phi[n], i, Image(phi, open),
                                  EncodeFields(cfg, g, g[n].fields[i..], open) + rest), rest)
    decreases |g.Keys - open|, |g[n].fields| - i + 1
  {
    assert Mirrors(g[n], h[phi[n]], phi);
    if i == |g[n].fields| {
      assert EncodeFields(cfg, g, g[n].fields[i..], open) + rest == rest;
    } else {
      hide EncodeFields, EncodeField, VisitsFields, VisitsField, Recovers, Restored, LeafRestored;
      FirstField(cfg, g, n, i, open, rest);
      var f, later := g[n].fields[i], g[n].fields[i + 1..];
      var tail := EncodeFields(cfg, g, later, open) + rest;
      var h' := FieldRecovers(cfg, g, h, phi, n, i, open, tail);
      FieldsRecover(cfg, g, h', phi, n, i + 1, open, rest);
      StepRecovers(g, h, h', phi, n, i, VisitsField(cfg, g, f, open), VisitsFields(cfg, g, later, open),
                   DecodeFields(cfg, h', phi[n], i + 1, Image(phi, open), tail), rest);
    }
  }

  lemma FirstField<N>(cfg: Config, g: Graph<N>, n: N, i: nat, open: set<N>, rest: Bits)
    requires Closed(g) && n in g && i < |g[n].fields|
    ensures FieldsOk(g, [g[n].fields[i]])
    ensures FieldsOk(g, g[n].fields[i..]) && FieldsOk(g, g[n].fields[i + 1..])
    ensures EncodeFields(cfg, g, g[n].fields[i..], open) + rest
         == EncodeField(cfg, g, g[n].fields[i], open) + (EncodeFields(cfg, g, g[n].fields[i + 1..], open) + rest)
    ensures VisitsFields(cfg, g, g[n].fields[i..], open)
         == VisitsField(cfg, g, g[n].fields[i], open) + VisitsFields(cfg, g, g[n].fields[i + 1..], open)
  {
    assert FieldsOk(g, g[n].fields);
    assert g[n].fields[i..] == [g[n].fields[i]] + g[n].fields[i + 1..];
  }

  /** One field done, the rest recovered: everything recovered. */
  lemma StepRecovers<N, M>(g: Graph<N>, h: Graph<M>, h': Graph<M>, phi: map<N, M>, n: N, i: nat,
                           first: set<N>, later: set<N>, r: Parsed<Graph<M>>, rest: Bits)
    requires Isomorphic(g, h, phi) && n in g && i < |g[n].fields|
    requires first <= g.Keys && later <= g.Keys
    requires Progress(g, h, h', phi, {n} + first)
    requires LeafRestored(g, h', phi, n, i)
    requires forall x :: x in first ==> Restored(g, h', phi, x)
    requires Recovers(g, h', phi, n, i + 1, later, r, rest)
    ensures Recovers(g, h, phi, n, i, first + later, r, rest)
  {
    ProgressTrans(g, h, h', r.value, phi, {n} + first, {n} + later, {n} + (first + later));
    forall x | x in first + later
      ensures Restored(g, r.value, phi, x)
    {
      if x !in later {
        assert Restored(g, h', phi, x);
        forall j | 0 <= j < |g[x].fields|
          ensures LeafRestored(g, r.value, phi, x, j)
        {
          assert LeafRestored(g, h', phi, x, j);
        }
      }
    }
  }

  /** Reading one field: the leaf is restored, or everything behind the reference is. */
  lemma {:induction false} FieldRecovers<N, M>(cfg: Config, g: Graph<N>, h: Graph<M>, phi: map<N, M>,
                                               n: N, i: nat, open: set<N>, tail: Bits)
    returns (h': Graph<M>)
    requires PackableGraph(cfg, g) && Marked(cfg) && Isomorphic(g, h, phi)
    requires n in g && i < |g[n].fields| && open <= g.Keys
    requires i < |h[phi[n]].fields|
    ensures Progress(g, h, h', phi, {n} + VisitsField(cfg, g, g[n].fields[i], open))
    ensures LeafRestored(g, h', phi, n, i)
    ensures forall x :: x in VisitsField(cfg, g, g[n].fields[i], open) ==> Restored(g, h', phi, x)
    ensures i + 1 <= |h'[phi[n]].fields|
    ensures DecodeFields(cfg, h, phi[n], i, Image(phi, open), EncodeField(cfg, g, g[n].fields[i], open) + tail)
         == DecodeFields(cfg, h', phi[n], i + 1, Image(phi, open), tail)
    decreases |g.Keys - open|, 1
  {
    assert Mirrors(g[n], h[phi[n]], phi);
    match g[n].fields[i]
    case Leaf(k, v) =>
      ValueRoundTrip(cfg, k, v, tail);
      LeafProgress(g, h, phi, n, i);
      h' := SetLeaf(h, phi[n], i, v);
      assert {n} + VisitsField(cfg, g, g[n].fields[i], open) == {n};
    case Child(c) =>
      ObjectRecovers(cfg, g, h, phi, c, open, tail);
      var visits := VisitsObject(cfg, g, c, open);
      h' := DecodeObject(cfg, h, phi[c], Image(phi, open), EncodeObject(cfg, g, c, open) + tail).value;
      WiderProgress(g, h, h', phi, visits, {n} + visits);
      assert Mirrors(g[n], h'[phi[n]], phi);
  }

  lemma WiderProgress<N, M>(g: Graph<N>, h: Graph<M>, h': Graph<M>, phi: map<N, M>, s: set<N>, t: set<N>)
    requires Isomorphic(g, h, phi) && s <= t <= g.Keys
    requires Progress(g, h, h', phi, s)
    ensures Progress(g, h, h', phi, t)
  {
    assert Image(phi, s) <= Image(phi, t);
  }

  lemma {:induction false} ObjectRecovers<N, M>(cfg: Config, g: Graph<N>, h: Graph<M>, phi: map<N, M>,
                                                n: N, open: set<N>, rest: Bits)
    requires PackableGraph(cfg, g) && Marked(cfg) && Isomorphic(g, h, phi)
    requires n in g && open <= g.Keys
    ensures var r := DecodeObject(cfg, h, phi[n], Image(phi, open), EncodeObject(cfg, g, n, open) + rest);
            var visits := VisitsObject(cfg, g, n, open);
            && r.Ok? && r.rest == rest
            && Progress(g, h, r.value, phi, visits)
            && forall x :: x in visits ==> Restored(g, r.value, phi, x)
    decreases |g.Keys - open|, 0, 1
  {
    if n in open {
      assert phi[n] in Image(phi, open);
      assert EncodeObject(cfg, g, n, open) + rest == rest;
    } else if cfg.byReference {
      SkippedObject(cfg, g, h, phi, n, open, rest);
    } else {
      EnteredRecovers(cfg, g, h, phi, n, open, rest);
    }
  }

  lemma {:induction false} EnteredRecovers<N, M>(cfg: Config, g: Graph<N>, h: Graph<M>, phi: map<N, M>,
                                                 n: N, open: set<N>, rest: Bits)
    requires PackableGraph(cfg, g) && !cfg.byReference && Isomorphic(g, h, phi)
    requires n in g && open <= g.Keys && n !in open
    ensures var r := DecodeObject(cfg, h, phi[n], Image(phi, open), EncodeObject(cfg, g, n, open) + rest);
            var visits := VisitsObject(cfg, g, n, open);
            && r.Ok? && r.rest == rest
            && Progress(g, h, r.value, phi, visits)
            && forall x :: x in visits ==> Restored(g, r.value, phi, x)
    decreases |g.Keys - open|, 0, 0
  {
    assert g.Keys - (open + {n}) < g.Keys - open;
    SmallerSet(g.Keys - (open + {n}), g.Keys - open);
    assert g[n].fields[0..] == g[n].fields;
    assert FieldsOk(g, g[n].fields);
    FieldsRecover(cfg, g, h, phi, n, 0, open + {n}, rest);
    EnteredEncode(cfg, g, n, open, rest);
    NotInImage(g, h, phi, n, open);
    EnteredDecode(cfg, h, phi[n], Image(phi, open), EncodeFields(cfg, g, g[n].fields, open + {n}) + rest);
    WholeObject(g, h, phi, n, VisitsFields(cfg, g, g[n].fields, open + {n}),
                DecodeObject(cfg, h, phi[n], Image(phi, open), EncodeObject(cfg, g, n, open) + rest), rest);
  }

  lemma WholeObject<N, M>(g: Graph<N>, h: Graph<M>, phi: map<N, M>, n: N, visited: set<N>,
                          r: Parsed<Graph<M>>, rest: Bits)
    requires Isomorphic(g, h, phi) && n in g && visited <= g.Keys
    requires Recovers(g, h, phi, n, 0, visited, r, rest)
    ensures forall x :: x in {n} + visited ==> Restored(g, r.value, phi, x)
  {
  }

  /** By reference, only the null header is written and only the header is read. */
  lemma SkippedObject<N, M>(cfg: Config, g: Graph<N>, h: Graph<M>, phi: map<N, M>, n: N, open: set<N>, rest: Bits)
    requires Closed(g) && Isomorphic(g, h, phi) && cfg.byReference && cfg.useMetadata
    requires n in g && open <= g.Keys && n !in open
    ensures VisitsObject(cfg, g, n, open) == {}
    ensures DecodeObject(cfg, h, phi[n], Image(phi, open), EncodeObject(cfg, g, n, open) + rest) == Ok(h, rest)
  {
    NotInImage(g, h, phi, n, open);
    var w := EncodeObject(cfg, g, n, open) + rest;
    assert w[..4] == NULL_HEADER && w[4..] == rest;
  }

  lemma NotInImage<N, M>(g: Graph<N>, h: Graph<M>, phi: map<N, M>, n: N, open: set<N>)
    requires Isomorphic(g, h, phi) && n in g && open <= g.Keys && n !in open
    ensures phi[n] !in Image(phi, open)
    ensures Image(phi, open + {n}) == Image(phi, open) + {phi[n]}
  {
  }

  lemma EnteredEncode<N>(cfg: Config, g: Graph<N>, n: N, open: set<N>, rest: Bits)
    requires Closed(g) && !cfg.byReference && n in g && n !in open
    requires FieldsOk(g, g[n].fields)
    ensures VisitsObject(cfg, g, n, open) == {n} + VisitsFields(cfg, g, g[n].fields, open + {n})
    ensures EncodeObject(cfg, g, n, open) + rest
         == Header(cfg) + (EncodeFields(cfg, g, g[n].fields, open + {n}) + rest)
  {
  }

  lemma EnteredDecode<N>(cfg: Config, h: Graph<N>, m: N, open: set<N>, body: Bits)
    requires Linked(h) && !cfg.byReference && m in h && m !in open
    ensures DecodeObject(cfg, h, m, open, Header(cfg) + body) == DecodeFields(cfg, h, m, 0, open + {m}, body)
  {
    var w := Header(cfg) + body;
    if cfg.useMetadata {
      assert w[..4] == OBJECT_HEADER && w[4..] == body;
    } else {
      assert w == body;
    }
  }

  // ----- which objects that covers

  /** A chain of references. */
  ghost predicate IsPath<N>(g: Graph<N>, older p: seq<N>) {
    && p != []
    && (forall i :: 0 <= i < |p| ==> p[i] in g)
    && (forall i :: 0 < i < |p| ==> Child(p[i]) in g[p[i - 1]].fields)
  }

  ghost predicate Reaches<N>(g: Graph<N>, a: N, b: N) {
    exists p :: IsPath(g, p) && p[0] == a && p[|p| - 1] == b
  }

  lemma {:induction false} ChildVisited<N>(cfg: Config, g: Graph<N>, fields: seq<Field<N>>, c: N, open: set<N>)
    requires Closed(g) && FieldsOk(g, fields) && c in g && Child(c) in fields
    ensures VisitsObject(cfg, g, c, open) <= VisitsFields(cfg, g, fields, open)
  {
    if fields[0] != Child(c) {
      ChildVisited(cfg, g, fields[1..], c, open);
    }
  }

  /** The cycle check never hides an object for good: a path that meets no open object is followed to its
      end, because it can be cut where it returns to the object being entered. */
  lemma {:induction false} PathVisited<N>(cfg: Config, g: Graph<N>, p: seq<N>, open: set<N>)
    requires Closed(g) && !cfg.byReference && IsPath(g, p)
    requires forall i :: 0 <= i < |p| ==> p[i] !in open
    ensures p[|p| - 1] in VisitsObject(cfg, g, p[0], open)
    decreases |p|
  {
    var n := p[0];
    if |p| > 1 {
      if k :| 0 < k < |p| && p[k] == n {
        PathVisited(cfg, g, p[k..], open);
      } else {
        PathVisited(cfg, g, p[1..], open + {n});
        assert FieldsOk(g, g[n].fields);
        ChildVisited(cfg, g, g[n].fields, p[1], open + {n});
      }
    }
  }

  lemma PathExtends<N>(g: Graph<N>, n: N, c: N, x: N)
    requires n in g && Child(c) in g[n].fields && Reaches(g, c, x)
    ensures Reaches(g, n, x)
  {
    var p :| IsPath(g, p) && p[0] == c && p[|p| - 1] == x;
    var q := [n] + p;
    assert forall i :: 0 < i < |q| ==> q[i] == p[i - 1];
    assert IsPath(g, q);
  }

  lemma {:induction false} VisitedReachable<N>(cfg: Config, g: Graph<N>, n: N, fields: seq<Field<N>>,
                                                     open: set<N>, x: N)
    requires Closed(g) && n in g && FieldsOk(g, fields)
    requires forall f :: f in fields ==> f in g[n].fields
    requires x in VisitsFields(cfg, g, fields, open)
    ensures Reaches(g, n, x)
    decreases |g.Keys - open|, |fields|
  {
    if x in VisitsFields(cfg, g, fields[1..], open) {
      VisitedReachable(cfg, g, n, fields[1..], open, x);
    } else {
      assert fields[0] in g[n].fields;
      assert x in VisitsField(cfg, g, fields[0], open);
      var c := fields[0].target;
      assert x in VisitsObject(cfg, g, c, open);
      if x == c {
        assert IsPath(g, [c]);
      } else {
        assert g.Keys - (open + {c}) < g.Keys - open;
        SmallerSet(g.Keys - (open + {c}), g.Keys - open);
        VisitedReachable(cfg, g, c, g[c].fields, open + {c}, x);
      }
      PathExtends(g, n, c, x);
    }
  }

  /** From the top object, which packing does not mark as open, exactly the reachable objects are read. */
  lemma VisitsExactlyReachable<N>(cfg: Config, g: Graph<N>, root: N, x: N)
    requires Closed(g) && !cfg.byReference && root in g
    ensures Reaches(g, root, x) <==> x == root || x in VisitsFields(cfg, g, g[root].fields, {})
  {
    assert FieldsOk(g, g[root].fields);
    if x == root {
      assert IsPath(g, [root]);
    } else if Reaches(g, root, x) {
      var p :| IsPath(g, p) && p[0] == root && p[|p| - 1] == x;
      var q := p[1..];
      assert forall i :: 0 <= i < |q| ==> q[i] == p[i + 1];
      assert q[|q| - 1] == x;
      PathVisited(cfg, g, q, {});
      ChildVisited(cfg, g, g[root].fields, q[0], {});
    } else if x in VisitsFields(cfg, g, g[root].fields, {}) {
      VisitedReachable(cfg, g, root, g[root].fields, {}, x);
    }
  }

  /** The objects that unpacking the top one writes: those reachable from it, or by reference just itself. */
  ghost predicate Covered<N>(cfg: Config, g: Graph<N>, root: N, x: N) {
    if cfg.byReference then x == root else Reaches(g, root, x)
  }

  lemma CoversVisited<N>(cfg: Config, g: Graph<N>, root: N, x: N)
    requires Closed(g) && root in g
    ensures FieldsOk(g, g[root].fields)
    ensures Covered(cfg, g, root, x) <==> x == root || x in VisitsFields(cfg, g, g[root].fields, {})
  {
    hide Reaches;
    if cfg.byReference {
      assert FieldsOk(g, g[root].fields);
      NothingEntered(cfg, g, g[root].fields);
    } else {
      VisitsExactlyReachable(cfg, g, root, x);
    }
  }

  lemma {:induction false} NothingEntered<N>(cfg: Config, g: Graph<N>, fields: seq<Field<N>>)
    requires Closed(g) && FieldsOk(g, fields) && cfg.byReference
    ensures VisitsFields(cfg, g, fields, {}) == {}
  {
    if fields != [] {
      NothingEntered(cfg, g, fields[1..]);
      assert FieldsOk(g, [fields[0]]);
      assert VisitsField(cfg, g, fields[0], {}) == {};
    }
  }

  /** Packing any finite object graph and unpacking the bits into an isomorphic one, whatever its leaves hold
      and whatever bits follow, restores every leaf of every reachable object, touches nothing else and
      leaves exactly the bits that follow unread. By reference, with metadata, the same holds of the top object
      alone. */
  lemma PackUnpackRestores<N, M>(cfg: Config, g: Graph<N>, h: Graph<M>, phi: map<N, M>, root: N, rest: Bits)
    requires PackableGraph(cfg, g) && Marked(cfg) && Isomorphic(g, h, phi) && root in g
    ensures var r := DecodeFields(cfg, h, phi[root], 0, {}, EncodeFields(cfg, g, g[root].fields, {}) + rest);
            && r.Ok? && r.rest == rest && Isomorphic(g, r.value, phi)
            && (forall x :: Covered(cfg, g, root, x) ==> x in g && Restored(g, r.value, phi, x))
            && (forall m :: m in h && (forall x :: x in g && Covered(cfg, g, root, x) ==> m != phi[x])
                  ==> r.value[m] == h[m])
  {
    var visits := VisitsFields(cfg, g, g[root].fields, {});
    assert g[root].fields[0..] == g[root].fields;
    FieldsRecover(cfg, g, h, phi, root, 0, {}, rest);
    assert Image(phi, {}) == {};
    var r := DecodeFields(cfg, h, phi[root], 0, {}, EncodeFields(cfg, g, g[root].fields, {}) + rest);
    forall x | Covered(cfg, g, root, x)
      ensures x in g && Restored(g, r.value, phi, x)
    {
      CoversVisited(cfg, g, root, x);
    }
    forall m | m in h && forall x :: x in g && Covered(cfg, g, root, x) ==> m != phi[x]
      ensures r.value[m] == h[m]
    {
      forall x | x in {root} + visits
        ensures m != phi[x]
      {
        CoversVisited(cfg, g, root, x);
      }
      assert m !in Image(phi, {root} + visits);
    }
  }

  /** The same through bytes or words, whatever stale bits pad the last one. */
  lemma UnitsPackUnpackRestores<N, M>(cfg: Config, g: Graph<N>, h: Graph<M>, phi: map<N, M>, root: N,
                                      unit: nat, padding: Bits)
    requires PackableGraph(cfg, g) && Marked(cfg) && Isomorphic(g, h, phi) && root in g && unit > 0
    requires FieldsOk(g, g[root].fields)
    requires var b := EncodeFields(cfg, g, g[root].fields, {}); |b + padding| == RoundUp(|b|, unit)
    ensures var us := ToUnits(cfg.bigEndian, unit, EncodeFields(cfg, g, g[root].fields, {}) + padding);
            var r := DecodeFields(cfg, h, phi[root], 0, {}, FromUnits(cfg.bigEndian, unit, us));
            && r.Ok? && r.rest == padding && Isomorphic(g, r.value, phi)
            && forall x :: Covered(cfg, g, root, x) ==> x in g && Restored(g, r.value, phi, x)
  {
    hide EncodeFields, DecodeFields, ToUnits, FromUnits, Isomorphic, Reaches;
    var b := EncodeFields(cfg, g, g[root].fields, {}) + padding;
    var n := |b| / unit;
    assert |b| == n * unit;
    UnitsRoundTrip(cfg.bigEndian, unit, b, n);
    PackUnpackRestores(cfg, g, h, phi, root, padding);
  }

  // ----- references without metadata

  /** No leaf lies in any object that reading from here enters. */
  ghost predicate LeafFree<N>(h: Graph<N>, m: N, open: set<N>)
    requires Linked(h) && m in h
    decreases |h.Keys - open|, 0
  {
    m in open ||
    (assert h.Keys - (open + {m}) < h.Keys - open;
     SmallerSet(h.Keys - (open + {m}), h.Keys - open);
     LeafFreeFields(h, m, 0, open + {m}))
  }

  ghost predicate LeafFreeFields<N>(h: Graph<N>, m: N, i: nat, open: set<N>)
    requires Linked(h) && m in h && i <= |h[m].fields|
    decreases |h.Keys - open|, |h[m].fields| - i + 1
  {
    i == |h[m].fields| ||
    (h[m].fields[i].Child? && LeafFree(h, h[m].fields[i].target, open) && LeafFreeFields(h, m, i + 1, open))
  }

  lemma {:induction false} LeafFreeReads<N>(cfg: Config, h: Graph<N>, m: N, open: set<N>, w: Bits)
    requires Linked(h) && !cfg.useMetadata && m in h && LeafFree(h, m, open)
    ensures DecodeObject(cfg, h, m, open, w) == Ok(h, w)
    decreases |h.Keys - open|, 0
  {
    if m !in open {
      assert h.Keys - (open + {m}) < h.Keys - open;
      SmallerSet(h.Keys - (open + {m}), h.Keys - open);
      LeafFreeFieldsRead(cfg, h, m, 0, open + {m}, w);
    }
  }

  lemma {:induction false} LeafFreeFieldsRead<N>(cfg: Config, h: Graph<N>, m: N, i: nat, open: set<N>, w: Bits)
    requires Linked(h) && !cfg.useMetadata && m in h && i <= |h[m].fields| && LeafFreeFields(h, m, i, open)
    ensures DecodeFields(cfg, h, m, i, open, w) == Ok(h, w)
    decreases |h.Keys - open|, |h[m].fields| - i + 1
  {
    hide DecodeObject, LeafFree;
    if i < |h[m].fields| {
      LeafFreeReads(cfg, h, h[m].fields[i].target, open, w);
      LeafFreeFieldsRead(cfg, h, m, i + 1, open, w);
    }
  }

  lemma {:induction false} ObjectShrinks<N>(cfg: Config, h: Graph<N>, m: N, open: set<N>, w: Bits)
    requires Linked(h) && m in h
    ensures var r := DecodeObject(cfg, h, m, open, w); r.Ok? ==> |r.rest| <= |w|
    decreases |h.Keys - open|, 0
  {
    if m !in open && !(cfg.useMetadata && |w| < 4) {
      assert h.Keys - (open + {m}) < h.Keys - open;
      SmallerSet(h.Keys - (open + {m}), h.Keys - open);
      FieldsShrink(cfg, h, m, 0, open + {m}, if cfg.useMetadata then w[4..] else w);
    }
  }

  lemma {:induction false} FieldsShrink<N>(cfg: Config, h: Graph<N>, m: N, i: nat, open: set<N>, w: Bits)
    requires Linked(h) && m in h && i <= |h[m].fields|
    ensures var r := DecodeFields(cfg, h, m, i, open, w); r.Ok? ==> |r.rest| <= |w|
    decreases |h.Keys - open|, |h[m].fields| - i + 1
  {
    hide DecodeObject, DecodeValue, DecodeField;
    if i < |h[m].fields| && DecodeFields(cfg, h, m, i, open, w).Ok? {
      NextField(cfg, h, m, i, open, w);
      FieldShrinks(cfg, h, m, i, open, w);
      var f := DecodeField(cfg, h, m, i, open, w);
      SameKeys(cfg, h, m, i, open, w);
      FieldsShrink(cfg, f.value, m, i + 1, open, f.rest);
    }
  }

  lemma SameKeys<N>(cfg: Config, h: Graph<N>, m: N, i: nat, open: set<N>, w: Bits)
    requires Linked(h) && m in h && i < |h[m].fields|
    ensures var f := DecodeField(cfg, h, m, i, open, w); f.Ok? ==> f.value.Keys == h.Keys
  {
    hide DecodeField;
  }

  lemma {:induction false} FieldShrinks<N>(cfg: Config, h: Graph<N>, m: N, i: nat, open: set<N>, w: Bits)
    requires Linked(h) && m in h && i < |h[m].fields|
    ensures var r := DecodeField(cfg, h, m, i, open, w); r.Ok? ==> |r.rest| <= |w|
    decreases |h.Keys - open|, 1
  {
    hide DecodeObject, DecodeValue;
    match h[m].fields[i]
    case Leaf(k, _) => ValueShrinks(cfg, k, w);
    case Child(n) => ObjectShrinks(cfg, h, n, open, w);
  }

  /** Reading into an object with a leaf takes something from a byte of ones, or fails. */
  lemma {:induction false} LeafTakes<N>(cfg: Config, h: Graph<N>, m: N, open: set<N>)
    requires Readable(h) && !cfg.useMetadata && m in h && !LeafFree(h, m, open)
    ensures var r := DecodeObject(cfg, h, m, open, FULL_BYTE); r.Ok? ==> |r.rest| < 8
    decreases |h.Keys - open|, 0
  {
    assert h.Keys - (open + {m}) < h.Keys - open;
    SmallerSet(h.Keys - (open + {m}), h.Keys - open);
    LeafTakesFields(cfg, h, m, 0, open + {m});
  }

  lemma {:induction false} LeafTakesFields<N>(cfg: Config, h: Graph<N>, m: N, i: nat, open: set<N>)
    requires Readable(h) && !cfg.useMetadata && m in h && i <= |h[m].fields| && !LeafFreeFields(h, m, i, open)
    ensures var r := DecodeFields(cfg, h, m, i, open, FULL_BYTE); r.Ok? ==> |r.rest| < 8
    decreases |h.Keys - open|, |h[m].fields| - i + 1
  {
    hide DecodeObject, DecodeValue, LeafFree, SameShapes, WellFormed;
    if DecodeFields(cfg, h, m, i, open, FULL_BYTE).Ok? {
      NextField(cfg, h, m, i, open, FULL_BYTE);
      var f := DecodeField(cfg, h, m, i, open, FULL_BYTE);
      match h[m].fields[i]
      case Leaf(k, _) =>
        FullByteRead(cfg, k);
        FieldsShrink(cfg, f.value, m, i + 1, open, f.rest);
      case Child(n) =>
        if LeafFree(h, n, open) {
          LeafFreeReads(cfg, h, n, open, FULL_BYTE);
          LeafTakesFields(cfg, h, m, i + 1, open);
        } else {
          LeafTakes(cfg, h, n, open);
          FieldsShrink(cfg, f.value, m, i + 1, open, f.rest);
        }
    }
  }

  /** By reference and without metadata nothing is written for an object, yet reading enters it. So what is written
      reads back, whatever follows, just when no leaf lies in any object that reading enters. */
  lemma UnmarkedReferenceExact<N>(cfg: Config, h: Graph<N>, m: N, open: set<N>)
    requires Closed(h) && Readable(h) && m in h && cfg.byReference && !cfg.useMetadata
    ensures EncodeObject(cfg, h, m, open) == []
    ensures (forall w :: DecodeObject(cfg, h, m, open, EncodeObject(cfg, h, m, open) + w) == Ok(h, w))
       <==> LeafFree(h, m, open)
  {
    hide DecodeObject, LeafFree;
    assert forall w: Bits :: [] + w == w;
    if LeafFree(h, m, open) {
      forall w
        ensures DecodeObject(cfg, h, m, open, [] + w) == Ok(h, w)
      {
        assert [] + w == w;
        LeafFreeReads(cfg, h, m, open, w);
      }
    } else {
      LeafTakes(cfg, h, m, open);
      assert [] + FULL_BYTE == FULL_BYTE;
      assert DecodeObject(cfg, h, m, open, [] + FULL_BYTE) != Ok(h, FULL_BYTE);
    }
  }

  /** By reference and without metadata nothing is written for an object, yet reading enters it: an object with
      any leaf ahead of it cannot be read back from its own encoding. */
  lemma UnmarkedReferenceFails<N>(cfg: Config, g: Graph<N>, n: N)
    requires Closed(g) && Linked(g) && cfg.byReference && !cfg.useMetadata
    requires n in g && g[n].fields != [] && g[n].fields[0].Leaf? && g[n].fields[0].kind == KBool
    ensures EncodeObject(cfg, g, n, {}) == []
    ensures DecodeObject(cfg, g, n, {}, EncodeObject(cfg, g, n, {})) == Fail
  {
    assert {} + {n} == {n};
    assert DecodeField(cfg, g, n, 0, {n}, []) == Fail;
  }
}
