/** Adding, deleting and listing callbacks. */
module CallbackRegistry {
  import opened Options
  import opened Sequences
  import opened Callbacks

  // ----- operations on the state

  /** What an object's queue starts from: the typewide callbacks of the type it is addressed by, after those for
      report objects if it is one. */
  ghost function Seed(s: Queues, report: TypeId, t: TypeId, o: Target): seq<Callback>
    requires report in s.typewide && t in s.typewide
  {
    (if o.isReport then s.typewide[report] else []) + s.typewide[t]
  }

  ghost function Base(s: Queues, report: TypeId, t: TypeId, o: Target): seq<Callback>
    requires report in s.typewide && t in s.typewide
  {
    if o in s.pool && s.pool[o] != [] then s.pool[o] else Seed(s, report, t, o)
  }

  ghost function AddedTo(s: Queues, report: TypeId, t: TypeId, o: Target, cb: Callback, append: bool): Queues
    requires report in s.typewide && t in s.typewide
  {
    s.(pool := s.pool[o := AddOnce(Base(s, report, t, o), cb, append)])
  }

  /** The typewide queue an object without one of its own uses: that of the first derived type it can be cast to,
      looked for depth first. */
  ghost function TypewideFor(s: Queues, h: Hierarchy, rank: map<TypeId, nat>, t: TypeId, o: Target): Option<seq<Callback>>
    requires Acyclic(h, rank) && h.Keys == s.typewide.Keys && t in h
    decreases RankOf(rank, t), 1, 0
  {
    if t !in o.types then None
    else
      var q := FirstFor(s, h, rank, t, h[t], o);
      if q.Some? then q else Some(s.typewide[t])
  }

  ghost function FirstFor(s: Queues, h: Hierarchy, rank: map<TypeId, nat>, t: TypeId, ds: seq<TypeId>, o: Target)
    : Option<seq<Callback>>
    requires Acyclic(h, rank) && h.Keys == s.typewide.Keys && t in h && forall d :: d in ds ==> d in h[t]
    decreases RankOf(rank, t), 0, |ds|
  {
    if ds == [] then None
    else
      assert ds[0] in ds;
      var q := if ds[0] == t then None else TypewideFor(s, h, rank, ds[0], o);
      if q.Some? then q else FirstFor(s, h, rank, t, ds[1..], o)
  }

  // ----- the registry

  class Registry {
    const derived: Hierarchy
    ghost const rank: map<TypeId, nat>
    const report: TypeId
    var typewide: map<TypeId, seq<Callback>>
    var pool: map<Target, seq<Callback>>

    ghost function Current(): Queues
      reads this
    {
      Queues(typewide, pool)
    }

    ghost predicate Valid()
      reads this
    {
      Acyclic(derived, rank) && derived.Keys == typewide.Keys && report in typewide
    }

    constructor (derived: Hierarchy, ghost rank: map<TypeId, nat>, report: TypeId)
      requires Acyclic(derived, rank) && report in derived
      ensures Valid() && Current() == Queues(map t | t in derived :: [], map[])
    {
      this.derived, this.rank, this.report := derived, rank, report;
      typewide, pool := map t | t in derived :: [], map[];
    }

    static method Find(q: seq<Callback>, cb: Callback) returns (pos: int)
      ensures if cb in q then 0 <= pos < |q| && q[pos] == cb && cb !in q[..pos] else pos == -1
    {
      for i := 0 to |q|
        invariant cb !in q[..i]
      {
        if q[i] == cb {
          return i;
        }
      }
      assert q[..|q|] == q;
      return -1;
    }

    static method Insert(q: seq<Callback>, cb: Callback, append: bool) returns (q': seq<Callback>)
      ensures q' == AddOnce(q, cb, append) && Gained(q, q', cb, append)
    {
      q' := q;
      var pos := Find(q, cb);
      if pos == -1 {
        if append {
          q' := q + [cb];
        } else {
          q' := [cb] + q;
        }
      }
    }

    static method Remove(q: seq<Callback>, cb: Callback) returns (q': seq<Callback>, found: bool)
      ensures q' == Without(q, cb) && found == (cb in q)
    {
      var pos := Find(q, cb);
      if pos == -1 {
        WithoutAbsent(q, cb);
        return q, false;
      }
      WithoutAt(q, cb, pos);
      return q[..pos] + q[pos + 1..], true;
    }

    method AddToObjects(t: TypeId, cb: Callback, append: bool)
      modifies `pool
      ensures pool == map o | o in old(pool) :: if t in o.types then AddOnce(old(pool)[o], cb, append) else old(pool)[o]
    {
      var rest := pool.Keys;
      while rest != {}
        invariant rest <= pool.Keys == old(pool).Keys
        invariant forall o :: o in pool ==>
                    pool[o] == if o !in rest && t in o.types then AddOnce(old(pool)[o], cb, append) else old(pool)[o]
      {
        var o :| o in rest;
        rest := rest - {o};
        if t in o.types {
          var q := Insert(pool[o], cb, append);
          pool := pool[o := q];
        }
      }
    }

    /** The part of adding and deleting that does not go down the hierarchy. */
    method AddToType(t: TypeId, cb: Callback, append: bool)
      requires Valid() && t in typewide
      modifies `typewide, `pool
      ensures Valid() && Current() == Added(old(Current()), {t}, cb, append)
      ensures Spread(old(Current()), Current(), {t}, cb, append)
    {
      hide AddOnce, Gained, Spread, Added;
      var q := Insert(typewide[t], cb, append);
      typewide := typewide[t := q];
      AddToObjects(t, cb, append);
      AddedOnce(old(Current()), t, cb, append);
      AddedSpreads(old(Current()), {t}, cb, append);
    }

    method DeleteFromType(t: TypeId, cb: Callback) returns (found: bool)
      requires Valid() && t in typewide
      modifies `typewide, `pool
      ensures Valid() && Current() == Purged(old(Current()), [t], cb) && found == Registered(old(Current()), {t}, cb)
    {
      var q, here := Remove(typewide[t], cb);
      typewide := typewide[t := q];
      found := DeleteFromObjects(cb);
      found := here || found;
      PurgedOnce(old(Current()), t, cb);
    }

    method DeleteFromObjects(cb: Callback) returns (found: bool)
      modifies `pool
      ensures pool == map o | o in old(pool) :: Without(old(pool)[o], cb)
      ensures found == Pooled(old(pool), cb)
    {
      found := false;
      var rest := pool.Keys;
      while rest != {}
        invariant rest <= pool.Keys == old(pool).Keys
        invariant forall o :: o in pool ==> pool[o] == if o in rest then old(pool)[o] else Without(old(pool)[o], cb)
        invariant found == exists o :: o in old(pool) && o !in rest && cb in old(pool)[o]
      {
        var o :| o in rest;
        rest := rest - {o};
        var q, here := Remove(pool[o], cb);
        pool := pool[o := q];
        found := found || here;
      }
    }

    /** Adds to the type, to all objects of the type that have a queue, and so on down the hierarchy. */
    method AddTypewide(t: TypeId, cb: Callback, append: bool)
      requires Valid() && t in typewide
      modifies `typewide, `pool
      ensures Valid() && Current() == Added(old(Current()), Family(derived, rank, t), cb, append)
      ensures Spread(old(Current()), Current(), Family(derived, rank, t), cb, append)
      decreases RankOf(rank, t)
    {
      hide Added, Spread;
      AddToType(t, cb, append);
      ghost var family := {t};
      for i := 0 to |derived[t]|
        invariant Valid() && typewide.Keys == old(typewide).Keys
        invariant family == {t} + Families(derived, rank, t, derived[t][..i])
        invariant Current() == Added(old(Current()), family, cb, append)
      {
        hide Families, Family;
        var d := derived[t][i];
        FamiliesLast(derived, rank, t, derived[t][..i], d);
        OneMore(derived[t], i);
        if d != t {
          AddTypewide(d, cb, append);
          AddedTwice(old(Current()), family, Family(derived, rank, d), cb, append);
          family := family + Family(derived, rank, d);
        }
      }
      assert derived[t][..|derived[t]|] == derived[t];
      AddedSpreads(old(Current()), family, cb, append);
    }

    /** Deletes from the type, from all objects, and so on down the hierarchy, one occurrence at each visit; reports
        whether it found any. */
    method DeleteTypewide(t: TypeId, cb: Callback) returns (found: bool)
      requires Valid() && t in typewide
      modifies `typewide, `pool
      ensures Valid() && Current() == Purged(old(Current()), Visits(derived, rank, t), cb)
      ensures found == Registered(old(Current()), Family(derived, rank, t), cb)
      decreases RankOf(rank, t), 1
    {
      hide Purged, Registered, VisitsBelow;
      ghost var before := Current();
      found := DeleteFromType(t, cb);
      ghost var visits := [t];
      assert Visited([t]) == {t};
      NoneBelow(derived, rank, t);
      for i := 0 to |derived[t]|
        invariant Valid() && typewide.Keys == old(typewide).Keys
        invariant visits == [t] + VisitsBelow(derived, rank, t, derived[t][..i])
        invariant Current() == Purged(before, visits, cb) && found == Registered(before, Visited(visits), cb)
      {
        found, visits := DeleteFromDerived(t, i, cb, found, before, visits);
      }
      assert derived[t][..|derived[t]|] == derived[t];
      VisitsFamily(derived, rank, t);
    }

    /** One pass through that loop. */
    method DeleteFromDerived(t: TypeId, i: nat, cb: Callback, found: bool, ghost before: Queues, ghost visits: seq<TypeId>)
      returns (found': bool, ghost visits': seq<TypeId>)
      requires Valid() && t in typewide && i < |derived[t]|
      requires visits == [t] + VisitsBelow(derived, rank, t, derived[t][..i])
      requires Current() == Purged(before, visits, cb) && found == Registered(before, Visited(visits), cb)
      modifies `typewide, `pool
      ensures Valid() && typewide.Keys == old(typewide).Keys
      ensures visits' == [t] + VisitsBelow(derived, rank, t, derived[t][..i + 1])
      ensures Current() == Purged(before, visits', cb) && found' == Registered(before, Visited(visits'), cb)
      decreases RankOf(rank, t), 0
    {
      hide Purged, Registered, VisitsBelow, Visits, Visited, Family;
      var d := derived[t][i];
      found', visits' := found, visits;
      VisitsLast(derived, rank, t, derived[t][..i], d);
      OneMore(derived[t], i);
      if d != t {
        var below := DeleteTypewide(d, cb);
        found' := found || below;
        PurgedFurther(before, visits, derived, rank, d, cb);
        ConcatAssoc([t], VisitsBelow(derived, rank, t, derived[t][..i]), Visits(derived, rank, d));
        visits' := visits + Visits(derived, rank, d);
      }
    }

    /** Without an object, adds typewide unless the type has the callback already. With one, adds to its queue, which
        if empty starts from the typewide callbacks. A null callback and an unregistered pair are refused. */
    method Add(t: TypeId, obj: Option<Target>, cb: Callback?, registered: bool, append: bool)
      requires Valid() && t in typewide && (obj.Some? ==> t in obj.value.types)
      modifies `typewide, `pool
      ensures Valid()
      ensures if cb == null || !registered then Current() == old(Current())
              else match obj
                case None =>
                  && Current() == (if cb in old(typewide)[t] then old(Current())
                                   else Added(old(Current()), Family(derived, rank, t), cb, append))
                  && (cb !in old(typewide)[t] ==>
                        Spread(old(Current()), Current(), Family(derived, rank, t), cb, append))
                case Some(o) =>
                  && Current() == AddedTo(old(Current()), report, t, o, cb, append)
                  && typewide == old(typewide) && pool.Keys == old(pool).Keys + {o}
                  && (forall x :: x in old(pool) && x != o ==> pool[x] == old(pool)[x])
                  && Gained(if o in old(pool) && old(pool)[o] != [] then old(pool)[o]
                            else (if o.isReport then old(typewide)[report] else []) + old(typewide)[t],
                            pool[o], cb, append)
    {
      if cb == null || !registered {
        return;
      }
      match obj
      case None =>
        var pos := Find(typewide[t], cb);
        if pos == -1 {
          AddTypewide(t, cb, append);
        }
      case Some(o) =>
        var q: seq<Callback> := if o in pool then pool[o] else [];
        if |q| == 0 {
          if o.isReport {
            q := q + typewide[report];
          }
          q := q + typewide[t];
          assert q == Seed(Current(), report, t, o);
        }
        q := Insert(q, cb, append);
        pool := pool[o := q];
    }

    method Delete(t: TypeId, obj: Option<Target>, cb: Callback) returns (found: bool)
      requires Valid() && t in typewide && (obj.Some? ==> obj.value in pool)
      modifies `typewide, `pool
      ensures Valid()
      ensures match obj
              case None => && Current() == Purged(old(Current()), Visits(derived, rank, t), cb)
                           && (old(AllUnique(Current())) ==>
                                 Current() == Deleted(old(Current()), Family(derived, rank, t), cb))
                           && found == Registered(old(Current()), Family(derived, rank, t), cb)
              case Some(o) => typewide == old(typewide) && pool == old(pool)[o := Without(old(pool)[o], cb)]
                              && found == (cb in old(pool)[o])
    {
      match obj
      case None =>
        found := DeleteTypewide(t, cb);
        VisitsFamily(derived, rank, t);
        if old(AllUnique(Current())) {
          PurgedUnique(old(Current()), Visits(derived, rank, t), cb);
        }
      case Some(o) =>
        var q, here := Remove(pool[o], cb);
        pool := pool[o := q];
        found := here;
    }

    /** The queue of an object without one of its own: some derived type's if the object can be cast to it. */
    method GetTypewide(t: TypeId, o: Target) returns (q: Option<seq<Callback>>)
      requires Valid() && t in typewide
      ensures q == TypewideFor(Current(), derived, rank, t, o)
      decreases RankOf(rank, t)
    {
      if t !in o.types {
        return None;
      }
      ghost var all := FirstFor(Current(), derived, rank, t, derived[t], o);
      assert derived[t][0..] == derived[t];
      for i := 0 to |derived[t]|
        invariant all == FirstFor(Current(), derived, rank, t, derived[t][i..], o)
      {
        var d := derived[t][i];
        assert derived[t][i..][0] == d && derived[t][i..][1..] == derived[t][i + 1..];
        if d != t {
          q := GetTypewide(d, o);
          if q.Some? {
            return;
          }
        }
      }
      return Some(typewide[t]);
    }

    method GetQueue(t: TypeId, o: Target) returns (q: seq<Callback>)
      requires Valid() && t in typewide && t in o.types
      ensures q == QueueFor(Current(), derived, rank, t, o)
      ensures o in pool ==> q == pool[o]
      ensures o !in pool ==> exists u :: u in Family(derived, rank, t) && MostDerived(derived, u, o) && q == typewide[u]
    {
      if o !in pool {
        var found := GetTypewide(t, o);
        ghost var u := TypewideIsMostDerived(Current(), derived, rank, t, o);
        return found.value;
      }
      return pool[o];
    }

    /** The first enabled callback of the kind, and its position for the iteration to go on from. */
    method GetFirst(t: TypeId, o: Target, kind: TypeId) returns (cb: Callback?, itr: int)
      requires Valid() && t in typewide && t in o.types
      ensures var q := QueueFor(Current(), derived, rank, t, o);
              itr == NextShown(q, Shown(q, kind), 0) && cb == At(q, itr)
      ensures CallsNext(QueueFor(Current(), derived, rank, t, o), kind, 0, cb, itr)
    {
      var q := GetQueue(t, o);
      cb, itr := Scan(q, kind, 0);
    }

    method GetNext(t: TypeId, o: Target, kind: TypeId, itr: int) returns (cb: Callback?, itr': int)
      requires Valid() && t in typewide && t in o.types
      ensures var q := QueueFor(Current(), derived, rank, t, o);
              itr' == NextShown(q, Shown(q, kind), itr + 1) && cb == At(q, itr')
      ensures CallsNext(QueueFor(Current(), derived, rank, t, o), kind, itr + 1, cb, itr')
    {
      var q := GetQueue(t, o);
      cb, itr' := Scan(q, kind, itr + 1);
    }

    method GetLast(t: TypeId, o: Target, kind: TypeId) returns (cb: Callback?, itr: int)
      requires Valid() && t in typewide && t in o.types
      ensures var q := QueueFor(Current(), derived, rank, t, o);
              itr == PrevShown(q, Shown(q, kind), |q| - 1) && cb == At(q, itr)
      ensures var q := QueueFor(Current(), derived, rank, t, o); CallsPrevious(q, kind, |q| - 1, cb, itr)
    {
      var q := GetQueue(t, o);
      cb, itr := ScanBack(q, kind, |q| - 1);
    }

    method GetPrev(t: TypeId, o: Target, kind: TypeId, itr: int) returns (cb: Callback?, itr': int)
      requires Valid() && t in typewide && t in o.types
      ensures var q := QueueFor(Current(), derived, rank, t, o);
              itr' == PrevShown(q, Shown(q, kind), itr - 1) && cb == At(q, itr')
      ensures CallsPrevious(QueueFor(Current(), derived, rank, t, o), kind, itr - 1, cb, itr')
    {
      var q := GetQueue(t, o);
      cb, itr' := ScanBack(q, kind, itr - 1);
    }

    /** What code that runs its callbacks does: calls the callbacks of the kind one after the other, from the first until
        there is no next. */
    method DoCallbacks(t: TypeId, o: Target, kind: TypeId) returns (called: seq<Callback>)
      requires Valid() && t in typewide && t in o.types
      ensures var q := QueueFor(Current(), derived, rank, t, o);
              called == Select(q, Among(set c | c in q && kind in c.kinds && c.enabled))
    {
      hide QueueFor, NextShown, CallsNext, Select;
      ghost var q := QueueFor(Current(), derived, rank, t, o);
      ghost var on := Shown(q, kind);
      called := [];
      var cb, itr := GetFirst(t, o, kind);
      while cb != null
        invariant cb == At(q, itr) && itr >= 0
        invariant called + (if cb == null then [] else [cb] + Forward(q, on, itr + 1)) == Forward(q, on, 0)
        decreases |q| - itr
      {
        ConcatAssoc(called, [cb], Forward(q, on, itr + 1));
        called := called + [cb];
        cb, itr := GetNext(t, o, kind, itr);
      }
      ForwardLists(q, on, 0);
      assert q[Clamp(0, |q|)..] == q && on == set c | c in q && kind in c.kinds && c.enabled;
    }

    /** The loop of the forward iterators; positions outside the queue hold no callback. */
    static method Scan(q: seq<Callback>, kind: TypeId, start: int) returns (cb: Callback?, itr: int)
      ensures itr == NextShown(q, Shown(q, kind), start) && cb == At(q, itr)
      ensures CallsNext(q, kind, start, cb, itr)
    {
      itr := start;
      while itr < |q|
        invariant start <= itr && forall j :: 0 <= j < |q| && start <= j < itr ==> !(kind in q[j].kinds && q[j].enabled)
        invariant NextShown(q, Shown(q, kind), itr) == NextShown(q, Shown(q, kind), start)
      {
        cb := At(q, itr);
        if cb != null && kind in cb.kinds && cb.enabled {
          return;
        }
        itr := itr + 1;
      }
      cb := null;
    }

    static method ScanBack(q: seq<Callback>, kind: TypeId, start: int) returns (cb: Callback?, itr: int)
      ensures itr == PrevShown(q, Shown(q, kind), start) && cb == At(q, itr)
      ensures CallsPrevious(q, kind, start, cb, itr)
    {
      itr := start;
      while itr >= 0
        invariant itr <= start && forall j :: 0 <= j < |q| && itr < j <= start ==> !(kind in q[j].kinds && q[j].enabled)
        invariant PrevShown(q, Shown(q, kind), itr) == PrevShown(q, Shown(q, kind), start)
      {
        cb := At(q, itr);
        if cb != null && kind in cb.kinds && cb.enabled {
          return;
        }
        itr := itr - 1;
      }
      cb := null;
    }
  }

  /** The enabled callback of the kind next in the queue, from `start` on, or null if there is none. */
  ghost predicate CallsNext(q: seq<Callback>, kind: TypeId, start: int, cb: Callback?, itr: int)
    reads q
  {
    if cb == null then forall j :: 0 <= j < |q| && start <= j ==> !(kind in q[j].kinds && q[j].enabled)
    else && 0 <= itr < |q| && start <= itr && q[itr] == cb && kind in cb.kinds && cb.enabled
         && forall j :: 0 <= j < |q| && start <= j < itr ==> !(kind in q[j].kinds && q[j].enabled)
  }

  /** The one before, from `start` back. */
  ghost predicate CallsPrevious(q: seq<Callback>, kind: TypeId, start: int, cb: Callback?, itr: int)
    reads q
  {
    if cb == null then forall j :: 0 <= j < |q| && j <= start ==> !(kind in q[j].kinds && q[j].enabled)
    else && 0 <= itr < |q| && itr <= start && q[itr] == cb && kind in cb.kinds && cb.enabled
         && forall j :: 0 <= j < |q| && itr < j <= start ==> !(kind in q[j].kinds && q[j].enabled)
  }

  /** A type the object can be cast to, but to none of those derived from it. */
  ghost predicate MostDerived(h: Hierarchy, u: TypeId, o: Target) {
    u in h && u in o.types && forall d :: d in h[u] && d != u ==> d !in o.types
  }

  lemma PurgedFurther(s: Queues, visits: seq<TypeId>, h: Hierarchy, rank: map<TypeId, nat>, d: TypeId, cb: Callback)
    requires Acyclic(h, rank) && d in h
    ensures var more := Visits(h, rank, d);
            && Purged(Purged(s, visits, cb), more, cb) == Purged(s, visits + more, cb)
            && (Registered(s, Visited(visits), cb) || Registered(Purged(s, visits, cb), Family(h, rank, d), cb)
                <==> Registered(s, Visited(visits + more), cb))
  {
    hide Purged, Registered, Visits, Visited, Family;
    VisitsFamily(h, rank, d);
    PurgedTwice(s, visits, Visits(h, rank, d), cb);
    RegisteredTwice(s, visits, Visits(h, rank, d), cb);
  }

  lemma NoneBelow(h: Hierarchy, rank: map<TypeId, nat>, t: TypeId)
    requires Acyclic(h, rank) && t in h
    ensures [t] + VisitsBelow(h, rank, t, h[t][..0]) == [t]
    ensures Visits(h, rank, t) == [t] + VisitsBelow(h, rank, t, h[t])
  {
  }

  lemma AddedOnce(s: Queues, t: TypeId, cb: Callback, append: bool)
    requires t in s.typewide
    ensures Added(s, {t}, cb, append)
         == Queues(s.typewide[t := AddOnce(s.typewide[t], cb, append)],
                   map o | o in s.pool :: if t in o.types then AddOnce(s.pool[o], cb, append) else s.pool[o])
  {
    hide AddOnce;
    var once := Added(s, {t}, cb, append);
    assert once.typewide == s.typewide[t := AddOnce(s.typewide[t], cb, append)];
    assert once.pool == map o | o in s.pool :: if t in o.types then AddOnce(s.pool[o], cb, append) else s.pool[o];
  }

  lemma PurgedOnce(s: Queues, t: TypeId, cb: Callback)
    requires t in s.typewide
    ensures Purged(s, [t], cb) == Queues(s.typewide[t := Without(s.typewide[t], cb)],
                                         map o | o in s.pool :: Without(s.pool[o], cb))
  {
    var once := Purged(s, [t], cb);
    forall o | o in s.pool
      ensures once.pool[o] == Without(s.pool[o], cb)
    {
      assert WithoutFirst(s.pool[o], cb, 1) == WithoutFirst(Without(s.pool[o], cb), cb, 0);
    }
    assert WithoutFirst(s.typewide[t], cb, 1) == WithoutFirst(Without(s.typewide[t], cb), cb, 0);
    assert once.typewide == s.typewide[t := Without(s.typewide[t], cb)];
  }

  function At(q: seq<Callback>, i: int): Callback? {
    if 0 <= i < |q| then q[i] else null
  }

  ghost function QueueFor(s: Queues, h: Hierarchy, rank: map<TypeId, nat>, t: TypeId, o: Target): seq<Callback>
    requires Acyclic(h, rank) && h.Keys == s.typewide.Keys && t in h && t in o.types
  {
    if o in s.pool then s.pool[o] else TypewideFor(s, h, rank, t, o).value
  }

  /** The queue found is that of a descendant the object can be cast to, and to none of whose own derived types. */
  lemma {:induction false} TypewideIsMostDerived(s: Queues, h: Hierarchy, rank: map<TypeId, nat>, t: TypeId, o: Target)
    returns (u: TypeId)
    requires Acyclic(h, rank) && h.Keys == s.typewide.Keys && t in h && t in o.types
    ensures u in Family(h, rank, t) && MostDerived(h, u, o) && TypewideFor(s, h, rank, t, o) == Some(s.typewide[u])
    decreases RankOf(rank, t), 1, 0
  {
    u := t;
    if d :| d in h[t] && d != t && d in o.types {
      u := FirstIsMostDerived(s, h, rank, t, h[t], o, d);
    } else {
      NoFirst(s, h, rank, t, h[t], o);
    }
  }

  /** Of several derived types the object can be cast to, the one registered first decides. */
  lemma TypewideOfFirst(s: Queues, h: Hierarchy, rank: map<TypeId, nat>, t: TypeId, o: Target, i: nat)
    requires Acyclic(h, rank) && h.Keys == s.typewide.Keys && t in h && t in o.types
    requires i < |h[t]| && h[t][i] != t && h[t][i] in o.types
    requires forall j :: 0 <= j < i ==> h[t][j] == t || h[t][j] !in o.types
    ensures h[t][i] in h && TypewideFor(s, h, rank, t, o) == TypewideFor(s, h, rank, h[t][i], o)
  {
    assert h[t][0..] == h[t];
    FirstSkips(s, h, rank, t, o, 0, i);
  }

  lemma {:induction false} FirstSkips(s: Queues, h: Hierarchy, rank: map<TypeId, nat>, t: TypeId, o: Target, k: nat,
                                      i: nat)
    requires Acyclic(h, rank) && h.Keys == s.typewide.Keys && t in h && k <= i < |h[t]|
    requires h[t][i] != t && h[t][i] in o.types
    requires forall j :: k <= j < i ==> h[t][j] == t || h[t][j] !in o.types
    ensures h[t][i] in h && FirstFor(s, h, rank, t, h[t][k..], o) == TypewideFor(s, h, rank, h[t][i], o)
    decreases i - k
  {
    assert h[t][k..][0] == h[t][k] && h[t][k..][1..] == h[t][k + 1..];
    if k < i {
      FirstSkips(s, h, rank, t, o, k + 1, i);
    }
  }

  lemma {:induction false} NoFirst(s: Queues, h: Hierarchy, rank: map<TypeId, nat>, t: TypeId, ds: seq<TypeId>, o: Target)
    requires Acyclic(h, rank) && h.Keys == s.typewide.Keys && t in h && forall d :: d in ds ==> d in h[t]
    requires forall d :: d in ds && d != t ==> d !in o.types
    ensures FirstFor(s, h, rank, t, ds, o) == None
    decreases |ds|
  {
    if ds != [] {
      assert ds[0] in ds;
      NoFirst(s, h, rank, t, ds[1..], o);
    }
  }

  lemma {:induction false} FirstIsMostDerived(s: Queues, h: Hierarchy, rank: map<TypeId, nat>, t: TypeId, ds: seq<TypeId>,
                                              o: Target, d: TypeId) returns (u: TypeId)
    requires Acyclic(h, rank) && h.Keys == s.typewide.Keys && t in h && forall e :: e in ds ==> e in h[t]
    requires d in ds && d != t && d in o.types
    ensures u in Families(h, rank, t, ds) && MostDerived(h, u, o)
    ensures FirstFor(s, h, rank, t, ds, o) == Some(s.typewide[u])
    decreases RankOf(rank, t), 0, |ds|
  {
    assert ds[0] in ds;
    if ds[0] != t && ds[0] in o.types {
      u := TypewideIsMostDerived(s, h, rank, ds[0], o);
    } else {
      u := FirstIsMostDerived(s, h, rank, t, ds[1..], o, d);
    }
  }

  // ----- iterating

  ghost function Shown(q: seq<Callback>, kind: TypeId): set<Callback>
    reads q
  {
    set c | c in q && kind in c.kinds && c.enabled
  }

  /** The position of the next callback shown, or else the first position past the queue. */
  ghost function NextShown(q: seq<Callback>, on: set<Callback>, i: int): (k: int)
    ensures i <= k && (i <= |q| ==> k <= |q|)
    decreases |q| - i
  {
    if i >= |q| || (i >= 0 && q[i] in on) then i else NextShown(q, on, i + 1)
  }

  ghost function PrevShown(q: seq<Callback>, on: set<Callback>, i: int): (k: int)
    ensures k <= i && (i >= -1 ==> k >= -1)
    decreases i
  {
    if i < 0 || (i < |q| && q[i] in on) then i else PrevShown(q, on, i - 1)
  }

  /** What repeated calls return from position `i` on until they return null. */
  ghost function Forward(q: seq<Callback>, on: set<Callback>, i: int): seq<Callback>
    decreases |q| - i
  {
    var k := NextShown(q, on, i);
    if k < 0 || k >= |q| then [] else [q[k]] + Forward(q, on, k + 1)
  }

  ghost function Backward(q: seq<Callback>, on: set<Callback>, i: int): seq<Callback>
    decreases i
  {
    var k := PrevShown(q, on, i);
    if k < 0 || k >= |q| then [] else [q[k]] + Backward(q, on, k - 1)
  }

  lemma ForwardStep(q: seq<Callback>, on: set<Callback>, i: int)
    requires i < |q|
    ensures Forward(q, on, i) == if i >= 0 && q[i] in on then [q[i]] + Forward(q, on, i + 1) else Forward(q, on, i + 1)
  {
  }

  /** Iterating forward lists the callbacks shown from there on, in queue order. */
  lemma {:induction false} ForwardLists(q: seq<Callback>, on: set<Callback>, i: int)
    ensures Forward(q, on, i) == Select(q[Clamp(i, |q|)..], Among(on))
    decreases |q| - i
  {
    if i < |q| {
      hide Forward, Among;
      ForwardLists(q, on, i + 1);
      ForwardStep(q, on, i);
      if i >= 0 {
        assert q[i..][0] == q[i] && q[i..][1..] == q[i + 1..];
        assert Among(on)(q[i]) <==> q[i] in on by { AmongMeans(on, q[i]); }
      }
    }
  }

  function Clamp(i: int, n: nat): (k: nat)
    ensures k <= n
  {
    if i < 0 then 0 else if i > n then n else i
  }

  /** Iterating backward lists those up to there, in reverse, from wherever past the end it starts. */
  lemma {:induction false} BackwardLists(q: seq<Callback>, on: set<Callback>, i: int)
    ensures Backward(q, on, i) == Reverse(Select(q[..Clamp(i + 1, |q|)], Among(on)))
    decreases i
  {
    if i >= |q| {
      BackwardLists(q, on, i - 1);
    } else if i >= 0 {
      BackwardLists(q, on, i - 1);
      SelectLast(q[..i], q[i], Among(on));
      assert q[..i + 1] == q[..i] + [q[i]];
      if q[i] in on {
        ReverseLast(Select(q[..i], Among(on)), q[i]);
      }
    }
  }

  /** From the front everything shown is listed; after any overshoot at either end the other iterator still lists
      everything, the backward one in reverse. */
  lemma ListingsAgree(q: seq<Callback>, on: set<Callback>, past: int, before: int)
    requires past >= |q| && before < 0
    ensures Forward(q, on, 0) == Forward(q, on, before + 1) == Select(q, Among(on))
    ensures Backward(q, on, past - 1) == Backward(q, on, |q| - 1) == Reverse(Forward(q, on, 0))
  {
    hide Forward, Backward;
    ForwardLists(q, on, 0);
    ForwardLists(q, on, before + 1);
    BackwardLists(q, on, past - 1);
    BackwardLists(q, on, |q| - 1);
    assert q[0..] == q && q[..|q|] == q;
  }
}
