/** Callback queues: one for every registered type, one for every object that was given callbacks of its own. */
module Callbacks {
  import opened Sequences

  type TypeId = nat

  class Callback {
    const name: string
    const kinds: set<TypeId>
    var enabled: bool
  }

  /** An object callbacks can be added to, and the types it can be cast to. */
  datatype Target = Target(id: nat, types: set<TypeId>, isReport: bool)

  datatype Queues = Queues(typewide: map<TypeId, seq<Callback>>, pool: map<Target, seq<Callback>>)

  // ----- single queues

  ghost predicate Unique<C>(q: seq<C>) {
    forall i, j :: 0 <= i < j < |q| ==> q[i] != q[j]
  }

  function AddOnce<C(==)>(q: seq<C>, cb: C, append: bool): seq<C> {
    if cb in q then q else if append then q + [cb] else [cb] + q
  }

  /** The first occurrence goes. */
  function Without<C(==)>(q: seq<C>, cb: C): seq<C> {
    if q == [] then [] else if q[0] == cb then q[1..] else [q[0]] + Without(q[1..], cb)
  }

  /** `q'` is `q` with the callback at the requested end, unless it was there already. */
  ghost predicate Gained<C>(q: seq<C>, q': seq<C>, cb: C, append: bool) {
    if cb in q then q' == q
    else |q'| == |q| + 1 && if append then q'[..|q|] == q && q'[|q|] == cb else q'[0] == cb && q'[1..] == q
  }

  lemma AddOnceGains<C>(q: seq<C>, cb: C, append: bool)
    ensures Gained(q, AddOnce(q, cb, append), cb, append) && cb in AddOnce(q, cb, append)
  {
    if cb !in q {
      assert cb == AddOnce(q, cb, append)[if append then |q| else 0];
    }
  }

  lemma AddOnceUnique<C>(q: seq<C>, cb: C, append: bool)
    ensures Unique(AddOnce(q, cb, append)) <==> Unique(q)
    ensures cb in AddOnce(q, cb, append)
  {
    if cb !in q {
      if append {
        assert forall i :: 0 <= i < |q| ==> (q + [cb])[i] == q[i];
        assert (q + [cb])[|q|] == cb;
      } else {
        assert forall i :: 0 <= i < |q| ==> ([cb] + q)[i + 1] == q[i];
        assert ([cb] + q)[0] == cb;
      }
    }
  }

  lemma {:induction false} WithoutUnique<C>(q: seq<C>, cb: C)
    requires Unique(q)
    ensures Unique(Without(q, cb)) && forall c :: c in Without(q, cb) <==> c in q && c != cb
  {
    if q != [] {
      var rest := q[1..];
      assert q == [q[0]] + rest;
      assert forall i :: 0 <= i < |rest| ==> rest[i] == q[i + 1];
      WithoutUnique(rest, cb);
      if q[0] != cb {
        AddOnceUnique(Without(rest, cb), q[0], false);
      }
    }
  }

  lemma {:induction false} WithoutAt<C>(q: seq<C>, cb: C, i: nat)
    requires i < |q| && q[i] == cb && cb !in q[..i]
    ensures Without(q, cb) == q[..i] + q[i + 1..]
  {
    if i > 0 {
      assert q[0] in q[..i] && q[1..][..i - 1] == q[..i][1..];
      WithoutAt(q[1..], cb, i - 1);
    }
  }

  lemma {:induction false} WithoutAbsent<C>(q: seq<C>, cb: C)
    requires cb !in q
    ensures Without(q, cb) == q
  {
    if q != [] {
      WithoutAbsent(q[1..], cb);
    }
  }

  lemma UniqueConcat<C>(a: seq<C>, b: seq<C>)
    requires Unique(a) && Unique(b)
    ensures Unique(a + b) <==> forall c :: c in a ==> c !in b
  {
    if c :| c in a && c in b {
      var i :| 0 <= i < |a| && a[i] == c;
      var j :| 0 <= j < |b| && b[j] == c;
      assert (a + b)[i] == (a + b)[|a| + j];
    } else {
      forall i, j | 0 <= i < j < |a + b|
        ensures (a + b)[i] != (a + b)[j]
      {
        if i < |a| <= j {
          assert a[i] in a && b[j - |a|] in b;
        }
      }
    }
  }

  // ----- the type hierarchy

  type Hierarchy = map<TypeId, seq<TypeId>>

  /** Derived types are registered, and apart from itself no type is among its own descendants. */
  ghost predicate Acyclic(h: Hierarchy, rank: map<TypeId, nat>) {
    forall t, d :: t in h && d in h[t] ==> t in rank && d in h && d in rank && (d != t ==> rank[d] < rank[t])
  }

  ghost function RankOf(rank: map<TypeId, nat>, t: TypeId): nat {
    if t in rank then rank[t] else 0
  }

  /** A type with all its descendants. */
  ghost function Family(h: Hierarchy, rank: map<TypeId, nat>, t: TypeId): set<TypeId>
    requires Acyclic(h, rank) && t in h
    decreases RankOf(rank, t), 1, 0
  {
    {t} + Families(h, rank, t, h[t])
  }

  ghost function Families(h: Hierarchy, rank: map<TypeId, nat>, t: TypeId, ds: seq<TypeId>): set<TypeId>
    requires Acyclic(h, rank) && t in h && forall d :: d in ds ==> d in h[t]
    decreases RankOf(rank, t), 0, |ds|
  {
    if ds == [] then {}
    else
      assert ds[0] in ds;
      (if ds[0] != t then Family(h, rank, ds[0]) else {}) + Families(h, rank, t, ds[1..])
  }

  lemma {:induction false} FamiliesLast(h: Hierarchy, rank: map<TypeId, nat>, t: TypeId, ds: seq<TypeId>, d: TypeId)
    requires Acyclic(h, rank) && t in h && d in h[t] && forall e :: e in ds ==> e in h[t]
    ensures Families(h, rank, t, ds + [d])
         == Families(h, rank, t, ds) + if d != t then Family(h, rank, d) else {}
    decreases |ds|
  {
    hide Family;
    if ds == [] {
      assert ds + [d] == [d] && [d][1..] == [];
    } else {
      assert ds[0] in ds;
      FamiliesLast(h, rank, t, ds[1..], d);
      assert (ds + [d])[0] == ds[0] && (ds + [d])[1..] == ds[1..] + [d];
    }
  }

  /** A family is closed under derivation. */
  lemma {:induction false} FamilyClosed(h: Hierarchy, rank: map<TypeId, nat>, t: TypeId, u: TypeId, d: TypeId)
    requires Acyclic(h, rank) && t in h && u in Family(h, rank, t)
    requires u in h && d in h[u]
    ensures d in Family(h, rank, t)
    decreases RankOf(rank, t), 1, 0
  {
    if u == t {
      FamiliesHold(h, rank, t, h[t], d);
    } else {
      FamiliesClosed(h, rank, t, h[t], u, d);
    }
  }

  lemma {:induction false} FamiliesHold(h: Hierarchy, rank: map<TypeId, nat>, t: TypeId, ds: seq<TypeId>, d: TypeId)
    requires Acyclic(h, rank) && t in h && (forall e :: e in ds ==> e in h[t]) && d in ds
    ensures d == t || d in Families(h, rank, t, ds)
    decreases |ds|
  {
    if d != ds[0] {
      FamiliesHold(h, rank, t, ds[1..], d);
    }
  }

  lemma {:induction false} FamiliesClosed(h: Hierarchy, rank: map<TypeId, nat>, t: TypeId, ds: seq<TypeId>, u: TypeId,
                                          d: TypeId)
    requires Acyclic(h, rank) && t in h && (forall e :: e in ds ==> e in h[t]) && u in Families(h, rank, t, ds)
    requires u in h && d in h[u]
    ensures d in Families(h, rank, t, ds)
    decreases RankOf(rank, t), 0, |ds|
  {
    assert ds[0] in ds;
    if ds[0] != t && u in Family(h, rank, ds[0]) {
      FamilyClosed(h, rank, ds[0], u, d);
    } else {
      FamiliesClosed(h, rank, t, ds[1..], u, d);
    }
  }

  /** And it is the least such set. */
  lemma {:induction false} FamilyLeast(h: Hierarchy, rank: map<TypeId, nat>, t: TypeId, s: set<TypeId>)
    requires Acyclic(h, rank) && t in h && t in s && forall u, d :: u in s && u in h && d in h[u] ==> d in s
    ensures Family(h, rank, t) <= s
    decreases RankOf(rank, t), 1, 0
  {
    FamiliesLeast(h, rank, t, h[t], s);
  }

  lemma {:induction false} FamiliesLeast(h: Hierarchy, rank: map<TypeId, nat>, t: TypeId, ds: seq<TypeId>, s: set<TypeId>)
    requires Acyclic(h, rank) && t in h && (forall e :: e in ds ==> e in h[t])
    requires t in s && forall u, d :: u in s && u in h && d in h[u] ==> d in s
    ensures Families(h, rank, t, ds) <= s
    decreases RankOf(rank, t), 0, |ds|
  {
    if ds != [] {
      assert ds[0] in ds;
      if ds[0] != t {
        FamilyLeast(h, rank, ds[0], s);
      }
      FamiliesLeast(h, rank, t, ds[1..], s);
    }
  }

  // ----- what the operations do to all queues

  /** Adding to the types `ts` and to the objects of those types. */
  ghost function Added(s: Queues, ts: set<TypeId>, cb: Callback, append: bool): Queues {
    Queues(map t | t in s.typewide :: if t in ts then AddOnce(s.typewide[t], cb, append) else s.typewide[t],
           map o | o in s.pool :: if o.types !! ts then s.pool[o] else AddOnce(s.pool[o], cb, append))
  }

  /** Deleting from the types `ts` and, whatever their types, from all objects. */
  ghost function Deleted(s: Queues, ts: set<TypeId>, cb: Callback): Queues {
    Queues(map t | t in s.typewide :: if t in ts then Without(s.typewide[t], cb) else s.typewide[t],
           map o | o in s.pool :: if ts == {} then s.pool[o] else Without(s.pool[o], cb))
  }

  ghost predicate Pooled(pool: map<Target, seq<Callback>>, cb: Callback) {
    exists o :: o in pool && cb in pool[o]
  }

  /** Whether the callback is registered with one of the types, or with any object. */
  ghost predicate Registered(s: Queues, ts: set<TypeId>, cb: Callback) {
    (exists t :: t in ts && t in s.typewide && cb in s.typewide[t]) || Pooled(s.pool, cb)
  }

  ghost predicate AllUnique(s: Queues) {
    && (forall t :: t in s.typewide ==> Unique(s.typewide[t]))
    && (forall o :: o in s.pool ==> Unique(s.pool[o]))
  }

  /** Every type of `ts` and every object with a type in `ts` then has the callback; their queues have gained it at the
      requested end if they lacked it, and all other queues are as before. */
  ghost predicate Spread(s: Queues, s': Queues, ts: set<TypeId>, cb: Callback, append: bool) {
    && s'.typewide.Keys == s.typewide.Keys && s'.pool.Keys == s.pool.Keys
    && (forall t :: t in s.typewide ==>
          if t in ts then cb in s'.typewide[t] && Gained(s.typewide[t], s'.typewide[t], cb, append)
          else s'.typewide[t] == s.typewide[t])
    && (forall o :: o in s.pool ==>
          if exists t :: t in o.types && t in ts then cb in s'.pool[o] && Gained(s.pool[o], s'.pool[o], cb, append)
          else s'.pool[o] == s.pool[o])
  }

  lemma AddedSpreads(s: Queues, ts: set<TypeId>, cb: Callback, append: bool)
    ensures Spread(s, Added(s, ts, cb, append), ts, cb, append)
  {
    hide AddOnce, Gained;
    forall t | t in s.typewide { AddOnceGains(s.typewide[t], cb, append); }
    forall o | o in s.pool { AddOnceGains(s.pool[o], cb, append); }
  }

  lemma AddedTwice(s: Queues, a: set<TypeId>, b: set<TypeId>, cb: Callback, append: bool)
    ensures Added(Added(s, a, cb, append), b, cb, append) == Added(s, a + b, cb, append)
  {
    var once, both := Added(Added(s, a, cb, append), b, cb, append), Added(s, a + b, cb, append);
    assert once.typewide == both.typewide;
    assert once.pool == both.pool;
  }

  lemma DeletedUnique(s: Queues, ts: set<TypeId>, cb: Callback)
    requires AllUnique(s)
    ensures AllUnique(Deleted(s, ts, cb))
    ensures forall t :: t in s.typewide && t in ts ==> cb !in Deleted(s, ts, cb).typewide[t]
    ensures ts != {} ==> forall o :: o in s.pool ==> cb !in Deleted(s, ts, cb).pool[o]
  {
    forall t | t in s.typewide { WithoutUnique(s.typewide[t], cb); }
    forall o | o in s.pool { WithoutUnique(s.pool[o], cb); }
  }

  // ----- deleting when queues may hold duplicates

  /** The first `n` occurrences go. */
  function WithoutFirst<C(==)>(q: seq<C>, cb: C, n: nat): seq<C>
    decreases n
  {
    if n == 0 then q else WithoutFirst(Without(q, cb), cb, n - 1)
  }

  lemma {:induction false} WithoutSum<C>(q: seq<C>, cb: C, a: nat, b: nat)
    ensures WithoutFirst(WithoutFirst(q, cb, a), cb, b) == WithoutFirst(q, cb, a + b)
    decreases a
  {
    if a > 0 {
      WithoutSum(Without(q, cb), cb, a - 1, b);
    }
  }

  lemma {:induction false} WithoutShrinks<C>(q: seq<C>, cb: C, c: C)
    ensures c in Without(q, cb) ==> c in q
  {
    if q != [] {
      WithoutShrinks(q[1..], cb, c);
    }
  }

  lemma {:induction false} WithoutFirstShrinks<C>(q: seq<C>, cb: C, n: nat, c: C)
    ensures c in WithoutFirst(q, cb, n) ==> c in q
    decreases n
  {
    if n > 0 {
      WithoutShrinks(q, cb, c);
      WithoutFirstShrinks(Without(q, cb), cb, n - 1, c);
    }
  }

  /** In a queue without duplicates one occurrence is all there is. */
  lemma {:induction false} WithoutFirstUnique<C>(q: seq<C>, cb: C, n: nat)
    requires Unique(q) && n > 0
    ensures WithoutFirst(q, cb, n) == Without(q, cb)
    decreases n
  {
    if n > 1 {
      WithoutUnique(q, cb);
      WithoutFirstUnique(Without(q, cb), cb, n - 1);
      WithoutAbsent(Without(q, cb), cb);
    }
  }

  /** The types a typewide deletion comes to, as often as it does: once for every way down the hierarchy. */
  ghost function Visits(h: Hierarchy, rank: map<TypeId, nat>, t: TypeId): seq<TypeId>
    requires Acyclic(h, rank) && t in h
    decreases RankOf(rank, t), 1, 0
  {
    [t] + VisitsBelow(h, rank, t, h[t])
  }

  ghost function VisitsBelow(h: Hierarchy, rank: map<TypeId, nat>, t: TypeId, ds: seq<TypeId>): seq<TypeId>
    requires Acyclic(h, rank) && t in h && forall d :: d in ds ==> d in h[t]
    decreases RankOf(rank, t), 0, |ds|
  {
    if ds == [] then []
    else
      assert ds[0] in ds;
      (if ds[0] != t then Visits(h, rank, ds[0]) else []) + VisitsBelow(h, rank, t, ds[1..])
  }

  lemma {:induction false} VisitsLast(h: Hierarchy, rank: map<TypeId, nat>, t: TypeId, ds: seq<TypeId>, d: TypeId)
    requires Acyclic(h, rank) && t in h && d in h[t] && forall e :: e in ds ==> e in h[t]
    ensures VisitsBelow(h, rank, t, ds + [d])
         == if d != t then VisitsBelow(h, rank, t, ds) + Visits(h, rank, d) else VisitsBelow(h, rank, t, ds)
    decreases |ds|
  {
    hide Visits;
    if ds == [] {
      assert ds + [d] == [d] && [d][1..] == [];
    } else {
      assert ds[0] in ds;
      VisitsLast(h, rank, t, ds[1..], d);
      assert (ds + [d])[0] == ds[0] && (ds + [d])[1..] == ds[1..] + [d];
      ConcatAssoc(if ds[0] != t then Visits(h, rank, ds[0]) else [], VisitsBelow(h, rank, t, ds[1..]), Visits(h, rank, d));
    }
  }

  ghost function Visited(visits: seq<TypeId>): set<TypeId> {
    set u | u in visits
  }

  /** The types visited are the family. */
  lemma {:induction false} VisitsFamily(h: Hierarchy, rank: map<TypeId, nat>, t: TypeId)
    requires Acyclic(h, rank) && t in h
    ensures Visited(Visits(h, rank, t)) == Family(h, rank, t)
    decreases RankOf(rank, t), 1, 0
  {
    VisitsFamilies(h, rank, t, h[t]);
  }

  lemma {:induction false} VisitsFamilies(h: Hierarchy, rank: map<TypeId, nat>, t: TypeId, ds: seq<TypeId>)
    requires Acyclic(h, rank) && t in h && forall d :: d in ds ==> d in h[t]
    ensures Visited(VisitsBelow(h, rank, t, ds)) == Families(h, rank, t, ds)
    decreases RankOf(rank, t), 0, |ds|
  {
    if ds != [] {
      assert ds[0] in ds;
      if ds[0] != t {
        VisitsFamily(h, rank, ds[0]);
      }
      VisitsFamilies(h, rank, t, ds[1..]);
    }
  }

  /** Each visit deletes the first occurrence from the queue of the type and from those of all objects. */
  ghost function Purged(s: Queues, visits: seq<TypeId>, cb: Callback): Queues {
    Queues(map t | t in s.typewide :: WithoutFirst(s.typewide[t], cb, multiset(visits)[t]),
           map o | o in s.pool :: WithoutFirst(s.pool[o], cb, |visits|))
  }

  ghost function OtherThan<C>(cb: C): C -> bool {
    c => c != cb
  }

  /** Of the callback `n` occurrences go, or all if there are fewer; everything else stays in order. */
  lemma {:induction false} WithoutFirstMeans<C>(q: seq<C>, cb: C, n: nat)
    ensures var before, after := multiset(q)[cb], multiset(WithoutFirst(q, cb, n))[cb];
            after == if before < n then 0 else before - n
    ensures Select(WithoutFirst(q, cb, n), OtherThan(cb)) == Select(q, OtherThan(cb))
    decreases n
  {
    if n > 0 {
      WithoutMeans(q, cb);
      WithoutFirstMeans(Without(q, cb), cb, n - 1);
    }
  }

  lemma {:induction false} WithoutMeans<C>(q: seq<C>, cb: C)
    ensures multiset(Without(q, cb))[cb] == if cb in q then multiset(q)[cb] - 1 else 0
    ensures Select(Without(q, cb), OtherThan(cb)) == Select(q, OtherThan(cb))
  {
    if q != [] {
      assert q == [q[0]] + q[1..];
      if q[0] != cb {
        WithoutMeans(q[1..], cb);
        assert Without(q, cb)[1..] == Without(q[1..], cb);
      }
    }
  }

  /** A purge takes the callback out of the queues of the types visited, once for each visit, and out of those of all
      objects, once for every visit at all; other callbacks and types are not touched. */
  lemma PurgedMeans(s: Queues, visits: seq<TypeId>, cb: Callback)
    ensures var s' := Purged(s, visits, cb);
            && s'.typewide.Keys == s.typewide.Keys && s'.pool.Keys == s.pool.Keys
            && (forall t :: t in s.typewide && t !in visits ==> s'.typewide[t] == s.typewide[t])
            && (forall t :: t in s.typewide ==>
                  Dropped(s.typewide[t], s'.typewide[t], cb, multiset(visits)[t]))
            && (forall o :: o in s.pool ==> Dropped(s.pool[o], s'.pool[o], cb, |visits|))
  {
    hide WithoutFirst, Select;
    forall t | t in s.typewide
      ensures Dropped(s.typewide[t], WithoutFirst(s.typewide[t], cb, multiset(visits)[t]), cb, multiset(visits)[t])
      ensures t !in visits ==> WithoutFirst(s.typewide[t], cb, multiset(visits)[t]) == s.typewide[t]
    {
      WithoutFirstMeans(s.typewide[t], cb, multiset(visits)[t]);
      assert t in visits <==> t in multiset(visits);
      WithoutNone(s.typewide[t], cb);
    }
    forall o | o in s.pool { WithoutFirstMeans(s.pool[o], cb, |visits|); }
  }

  lemma WithoutNone<C>(q: seq<C>, cb: C)
    ensures WithoutFirst(q, cb, 0) == q
  {
  }

  /** Of `cb`, `n` occurrences are gone, or all if there were fewer; everything else is still there, in order. */
  ghost predicate Dropped(q: seq<Callback>, q': seq<Callback>, cb: Callback, n: nat) {
    && multiset(q')[cb] == (if multiset(q)[cb] < n then 0 else multiset(q)[cb] - n)
    && Select(q', OtherThan(cb)) == Select(q, OtherThan(cb))
  }

  lemma PurgedTwice(s: Queues, a: seq<TypeId>, b: seq<TypeId>, cb: Callback)
    ensures Purged(Purged(s, a, cb), b, cb) == Purged(s, a + b, cb)
  {
    var once, both := Purged(Purged(s, a, cb), b, cb), Purged(s, a + b, cb);
    assert multiset(a + b) == multiset(a) + multiset(b);
    forall t | t in s.typewide
      ensures once.typewide[t] == both.typewide[t]
    {
      WithoutSum(s.typewide[t], cb, multiset(a)[t], multiset(b)[t]);
    }
    forall o | o in s.pool
      ensures once.pool[o] == both.pool[o]
    {
      WithoutSum(s.pool[o], cb, |a|, |b|);
    }
    assert once.typewide == both.typewide;
    assert once.pool == both.pool;
  }

  /** Without duplicates that deletes the callback from the types visited and from all objects. */
  lemma PurgedUnique(s: Queues, visits: seq<TypeId>, cb: Callback)
    requires AllUnique(s) && visits != []
    ensures Purged(s, visits, cb) == Deleted(s, Visited(visits), cb)
  {
    var once, all := Purged(s, visits, cb), Deleted(s, Visited(visits), cb);
    assert visits[0] in Visited(visits);
    forall t | t in s.typewide
      ensures once.typewide[t] == all.typewide[t]
    {
      assert t in visits <==> t in multiset(visits);
      if t in visits {
        WithoutFirstUnique(s.typewide[t], cb, multiset(visits)[t]);
      }
    }
    forall o | o in s.pool
      ensures once.pool[o] == all.pool[o]
    {
      WithoutFirstUnique(s.pool[o], cb, |visits|);
    }
    assert once.typewide == all.typewide;
    assert once.pool == all.pool;
  }

  /** A purge in two steps finds the callback just when one in one step would. */
  lemma RegisteredTwice(s: Queues, a: seq<TypeId>, b: seq<TypeId>, cb: Callback)
    ensures Registered(s, Visited(a), cb) || Registered(Purged(s, a, cb), Visited(b), cb)
       <==> Registered(s, Visited(a + b), cb)
  {
    var t := Purged(s, a, cb);
    forall u | u in s.typewide
      ensures cb in t.typewide[u] ==> cb in s.typewide[u]
      ensures u !in a ==> t.typewide[u] == s.typewide[u]
    {
      assert u in a <==> u in multiset(a);
      WithoutFirstShrinks(s.typewide[u], cb, multiset(a)[u], cb);
    }
    forall o | o in s.pool
      ensures cb in t.pool[o] ==> cb in s.pool[o]
    {
      WithoutFirstShrinks(s.pool[o], cb, |a|, cb);
    }
    assert Visited(a + b) == Visited(a) + Visited(b);
  }
}
