/** What callback queues look like after any history of additions and deletions. */
module CallbackHistory {
  import opened Options
  import opened Sequences
  import opened Callbacks
  import opened CallbackRegistry

  datatype Op =
    | AddAll(t: TypeId, cb: Callback, append: bool)
    | DeleteAll(t: TypeId, cb: Callback)
    | AddOne(t: TypeId, o: Target, cb: Callback, append: bool)
    | DeleteOne(o: Target, cb: Callback)

  /** Types are registered, and callbacks are deleted only from objects that have a queue. */
  ghost predicate Allowed(s: Queues, op: Op) {
    match op
    case DeleteOne(o, _) => o in s.pool
    case _ => op.t in s.typewide
  }

  ghost predicate WellTyped(s: Queues, h: Hierarchy, rank: map<TypeId, nat>, report: TypeId) {
    Acyclic(h, rank) && h.Keys == s.typewide.Keys && report in s.typewide
  }

  ghost function Step(s: Queues, h: Hierarchy, rank: map<TypeId, nat>, report: TypeId, op: Op): Queues
    requires WellTyped(s, h, rank, report) && Allowed(s, op)
  {
    match op
    case AddAll(t, cb, append) => if cb in s.typewide[t] then s else Added(s, Family(h, rank, t), cb, append)
    case DeleteAll(t, cb) => Purged(s, Visits(h, rank, t), cb)
    case AddOne(t, o, cb, append) => AddedTo(s, report, t, o, cb, append)
    case DeleteOne(o, cb) => s.(pool := s.pool[o := Without(s.pool[o], cb)])
  }

  /** A report object whose queue is empty gets the callbacks of report objects and those of the given type; these
      must not overlap. */
  ghost predicate SeedsApart(s: Queues, report: TypeId, op: Op)
    requires report in s.typewide && Allowed(s, op)
  {
    op.AddOne? && op.o.isReport && (op.o in s.pool ==> s.pool[op.o] == []) ==>
      forall c :: c in s.typewide[report] ==> c !in s.typewide[op.t]
  }

  /** Every operation keeps all queues free of duplicates, except adding to a report object with overlapping seeds,
      which never does. */
  lemma StepUnique(s: Queues, h: Hierarchy, rank: map<TypeId, nat>, report: TypeId, op: Op)
    requires WellTyped(s, h, rank, report) && Allowed(s, op) && AllUnique(s)
    ensures WellTyped(Step(s, h, rank, report, op), h, rank, report)
    ensures AllUnique(Step(s, h, rank, report, op)) <==> SeedsApart(s, report, op)
  {
    hide Family, Unique, AddOnce, Without;
    match op
    case AddAll(t, cb, append) =>
      forall u | u in s.typewide { AddOnceUnique(s.typewide[u], cb, append); }
      forall o | o in s.pool { AddOnceUnique(s.pool[o], cb, append); }
    case DeleteAll(t, cb) =>
      PurgedFamily(s, h, rank, t, cb);
    case AddOne(t, o, cb, append) =>
      SeedUnique(s, report, t, o);
      AddOnceUnique(Base(s, report, t, o), cb, append);
      assert Step(s, h, rank, report, op).pool[o] == AddOnce(Base(s, report, t, o), cb, append);
    case DeleteOne(o, cb) =>
      WithoutUnique(s.pool[o], cb);
  }

  lemma PurgedFamily(s: Queues, h: Hierarchy, rank: map<TypeId, nat>, t: TypeId, cb: Callback)
    requires Acyclic(h, rank) && t in h && AllUnique(s)
    ensures Purged(s, Visits(h, rank, t), cb) == Deleted(s, Family(h, rank, t), cb)
    ensures Deleted(s, Family(h, rank, t), cb).typewide.Keys == s.typewide.Keys
    ensures AllUnique(Deleted(s, Family(h, rank, t), cb)) && !Registered(Deleted(s, Family(h, rank, t), cb), Family(h, rank, t), cb)
  {
    VisitsFamily(h, rank, t);
    PurgedUnique(s, Visits(h, rank, t), cb);
    DeletedUnique(s, Family(h, rank, t), cb);
    assert t in Family(h, rank, t);
  }

  lemma SeedUnique(s: Queues, report: TypeId, t: TypeId, o: Target)
    requires report in s.typewide && t in s.typewide && AllUnique(s)
    ensures Unique(Seed(s, report, t, o)) <==>
            (o.isReport ==> forall c :: c in s.typewide[report] ==> c !in s.typewide[t])
  {
    UniqueConcat(s.typewide[report], s.typewide[t]);
    assert [] + s.typewide[t] == s.typewide[t];
  }

  // ----- histories

  /** Every registered type with an empty queue, and no object with one. */
  ghost function Fresh(h: Hierarchy): Queues {
    Queues(map t | t in h :: [], map[])
  }

  /** The states a history goes through. */
  ghost predicate IsHistory(states: seq<Queues>, ops: seq<Op>, h: Hierarchy, rank: map<TypeId, nat>, report: TypeId) {
    && Acyclic(h, rank) && report in h
    && |states| == |ops| + 1 && states[0] == Fresh(h)
    && forall i :: 0 <= i < |ops| ==>
         && WellTyped(states[i], h, rank, report) && Allowed(states[i], ops[i])
         && states[i + 1] == Step(states[i], h, rank, report, ops[i])
  }

  /** Without overlapping seeds no queue ever holds a callback twice. */
  lemma {:induction false} HistoryUnique(states: seq<Queues>, ops: seq<Op>, h: Hierarchy, rank: map<TypeId, nat>,
                                         report: TypeId, n: nat)
    requires IsHistory(states, ops, h, rank, report) && n < |states|
    requires forall i :: 0 <= i < n ==> SeedsApart(states[i], report, ops[i])
    ensures AllUnique(states[n])
  {
    hide Step;
    if n > 0 {
      HistoryUnique(states, ops, h, rank, report, n - 1);
      StepUnique(states[n - 1], h, rank, report, ops[n - 1]);
    }
  }

  /** After a typewide delete in such a history neither the type, nor any of its descendants, nor any object at all
      has the callback. */
  lemma DeletedEverywhere(states: seq<Queues>, ops: seq<Op>, h: Hierarchy, rank: map<TypeId, nat>, report: TypeId, n: nat)
    requires IsHistory(states, ops, h, rank, report) && n < |ops| && ops[n].DeleteAll?
    requires forall i :: 0 <= i < n ==> SeedsApart(states[i], report, ops[i])
    ensures ops[n].t in h
    ensures !Registered(states[n + 1], Family(h, rank, ops[n].t), ops[n].cb)
  {
    hide Deleted, AllUnique, Purged, Registered;
    HistoryUnique(states, ops, h, rank, report, n);
    PurgedFamily(states[n], h, rank, ops[n].t, ops[n].cb);
  }

  // ----- deleting what was added

  /** After a typewide addition of a callback the type did not have, every type of the family has it, and so has every
      object with a queue and one of these types; nothing else has changed. */
  lemma AddedEverywhere(states: seq<Queues>, ops: seq<Op>, h: Hierarchy, rank: map<TypeId, nat>, report: TypeId, n: nat)
    requires IsHistory(states, ops, h, rank, report) && n < |ops| && ops[n].AddAll?
    ensures ops[n].t in h
    ensures ops[n].cb !in states[n].typewide[ops[n].t] ==>
              Spread(states[n], states[n + 1], Family(h, rank, ops[n].t), ops[n].cb, ops[n].append)
  {
    hide Added, Spread, Family;
    AddedSpreads(states[n], Family(h, rank, ops[n].t), ops[n].cb, ops[n].append);
  }

  /** Adding a callback typewide and then deleting it typewide leaves everything as it was, just when neither the type,
      nor a descendant, nor any object had it before. */
  lemma AddThenDelete(s: Queues, h: Hierarchy, rank: map<TypeId, nat>, report: TypeId, t: TypeId, cb: Callback, append: bool)
    requires WellTyped(s, h, rank, report) && t in h && AllUnique(s)
    ensures var s' := Step(s, h, rank, report, AddAll(t, cb, append));
            && WellTyped(s', h, rank, report)
            && (Step(s', h, rank, report, DeleteAll(t, cb)) == s <==> !Registered(s, Family(h, rank, t), cb))
  {
    hide Family, AllUnique, Added, Deleted, Purged, Registered;
    var family := Family(h, rank, t);
    StepUnique(s, h, rank, report, AddAll(t, cb, append));
    var s' := Step(s, h, rank, report, AddAll(t, cb, append));
    PurgedFamily(s', h, rank, t, cb);
    if !Registered(s, family, cb) {
      TypeInFamily(h, rank, t);
      TypeRegistered(s, family, t, cb);
      AddedDeleted(s, family, cb, append);
    }
  }

  lemma TypeRegistered(s: Queues, ts: set<TypeId>, t: TypeId, cb: Callback)
    requires !Registered(s, ts, cb) && t in ts && t in s.typewide
    ensures cb !in s.typewide[t]
  {
  }

  lemma AddedDeleted(s: Queues, ts: set<TypeId>, cb: Callback, append: bool)
    requires !Registered(s, ts, cb) && ts != {}
    ensures Deleted(Added(s, ts, cb, append), ts, cb) == s
  {
    hide AddOnce, Without;
    var s' := Deleted(Added(s, ts, cb, append), ts, cb);
    forall u | u in s.typewide
      ensures s'.typewide[u] == s.typewide[u]
    {
      GainedLost(s.typewide[u], cb, append);
    }
    forall o | o in s.pool
      ensures s'.pool[o] == s.pool[o]
    {
      GainedLost(s.pool[o], cb, append);
      WithoutAbsent(s.pool[o], cb);
    }
    assert s'.typewide == s.typewide && s'.pool == s.pool;
  }

  lemma TypeInFamily(h: Hierarchy, rank: map<TypeId, nat>, t: TypeId)
    requires Acyclic(h, rank) && t in h
    ensures t in Family(h, rank, t)
  {
  }

  lemma GainedLost(q: seq<Callback>, cb: Callback, append: bool)
    ensures Without(AddOnce(q, cb, append), cb) == q <==> cb !in q
  {
    if cb in q {
      WithoutMeans(q, cb);
    } else if append {
      WithoutAt(q + [cb], cb, |q|);
      assert (q + [cb])[..|q|] == q;
    } else {
      WithoutAt([cb] + q, cb, 0);
    }
  }

  /** The same for one object, just when it had a queue, and that was non-empty without the callback, or nothing but
      the callback came into it with the seed. */
  lemma AddOneThenDelete(s: Queues, h: Hierarchy, rank: map<TypeId, nat>, report: TypeId, t: TypeId, o: Target,
                         cb: Callback, append: bool)
    requires WellTyped(s, h, rank, report) && t in h
    ensures var s' := Step(s, h, rank, report, AddOne(t, o, cb, append));
            && WellTyped(s', h, rank, report) && o in s'.pool
            && (Step(s', h, rank, report, DeleteOne(o, cb)) == s <==>
                  o in s.pool && if s.pool[o] != [] then cb !in s.pool[o] else Seed(s, report, t, o) in {[], [cb]})
  {
    hide Seed, AddOnce, Without;
    var s' := Step(s, h, rank, report, AddOne(t, o, cb, append));
    var seed := Seed(s, report, t, o);
    var q := Without(AddOnce(Base(s, report, t, o), cb, append), cb);
    assert Step(s', h, rank, report, DeleteOne(o, cb)).pool == s.pool[o := q];
    if o in s.pool {
      assert s.pool[o := q] == s.pool <==> q == s.pool[o];
      if s.pool[o] != [] {
        GainedLost(s.pool[o], cb, append);
      } else {
        NothingLeft(seed, cb, append);
      }
    }
  }

  lemma NothingLeft(q: seq<Callback>, cb: Callback, append: bool)
    ensures Without(AddOnce(q, cb, append), cb) == [] <==> q == [] || q == [cb]
  {
    if cb in q {
      assert q == [q[0]] + q[1..];
    } else {
      GainedLost(q, cb, append);
    }
  }

  /** A history that breaks this: a typewide addition to report objects reaches the type derived from them, and the
      first addition to a report object of that type takes the callback from both. */
  lemma DuplicateArises(cb: Callback, other: Callback, o: Target)
    returns (states: seq<Queues>, ops: seq<Op>, h: Hierarchy, rank: map<TypeId, nat>)
    requires o.isReport
    ensures IsHistory(states, ops, h, rank, 0) && |states| == 3 && AllUnique(states[1]) && !AllUnique(states[2])
  {
    h, rank := map[0 := [1], 1 := []], map[0 := 1, 1 := 0];
    var all, one := AddAll(0, cb, true), AddOne(1, o, other, true);
    var s0, s1 := Fresh(h), Queues(map[0 := [cb], 1 := [cb]], map[]);
    TwoTypes(h, rank);
    AddedToBoth(h, rank, cb);
    OverlapDuplicates(s1, h, rank, cb, one);
    hide Step, AllUnique, Acyclic, Allowed, Fresh;
    var s2 := Step(s1, h, rank, 0, one);
    states, ops := [s0, s1, s2], [all, one];
    HistoryOfTwo(s0, s1, s2, all, one, h, rank);
  }

  lemma OverlapDuplicates(s: Queues, h: Hierarchy, rank: map<TypeId, nat>, cb: Callback, op: Op)
    requires WellTyped(s, h, rank, 0) && AllUnique(s) && Allowed(s, op) && op.AddOne? && op.o.isReport
    requires op.o !in s.pool && cb in s.typewide[0] && cb in s.typewide[op.t]
    ensures !AllUnique(Step(s, h, rank, 0, op)) && WellTyped(Step(s, h, rank, 0, op), h, rank, 0)
  {
    hide Step, AllUnique, Acyclic;
    StepUnique(s, h, rank, 0, op);
  }

  lemma HistoryOfTwo(s0: Queues, s1: Queues, s2: Queues, a: Op, b: Op, h: Hierarchy, rank: map<TypeId, nat>)
    requires Acyclic(h, rank) && 0 in h && s0 == Fresh(h)
    requires WellTyped(s0, h, rank, 0) && Allowed(s0, a) && s1 == Step(s0, h, rank, 0, a)
    requires WellTyped(s1, h, rank, 0) && Allowed(s1, b) && s2 == Step(s1, h, rank, 0, b)
    ensures IsHistory([s0, s1, s2], [a, b], h, rank, 0)
  {
    hide Step, AllUnique, Acyclic, Allowed, Fresh, WellTyped;
  }

  lemma AddedToBoth(h: Hierarchy, rank: map<TypeId, nat>, cb: Callback)
    requires h == map[0 := [1], 1 := []] && rank == map[0 := 1, 1 := 0]
    ensures WellTyped(Fresh(h), h, rank, 0)
    ensures Step(Fresh(h), h, rank, 0, AddAll(0, cb, true)) == Queues(map[0 := [cb], 1 := [cb]], map[])
    ensures AllUnique(Queues(map[0 := [cb], 1 := [cb]], map[]))
  {
    TwoTypes(h, rank);
    hide Family, Families;
    var s := Added(Fresh(h), {0, 1}, cb, true);
    assert [] + [cb] == [cb];
    assert s.typewide.Keys == {0, 1} && s.typewide[0] == [cb] && s.typewide[1] == [cb];
    assert s.typewide == map[0 := [cb], 1 := [cb]];
    assert s.pool == map[];
  }

  lemma TwoTypes(h: Hierarchy, rank: map<TypeId, nat>)
    requires h == map[0 := [1], 1 := []] && rank == map[0 := 1, 1 := 0]
    ensures Acyclic(h, rank) && Family(h, rank, 0) == {0, 1}
  {
    assert Family(h, rank, 1) == {1};
    assert [1][1..] == [];
    assert Families(h, rank, 0, [1]) == {1};
  }

  // ----- appending to one object

  /** Appending a new callback to an object puts it behind what the object showed before, just when that queue and
      the one it is added to are the same: the object has a non-empty queue, or what it used without one is the
      seed. */
  lemma AppendExtends(s: Queues, h: Hierarchy, rank: map<TypeId, nat>, report: TypeId, t: TypeId, o: Target, cb: Callback)
    requires WellTyped(s, h, rank, report) && t in h && t in o.types
    requires cb !in QueueFor(s, h, rank, t, o) && cb !in Seed(s, report, t, o)
    ensures var after := AddedTo(s, report, t, o, cb, true);
            QueueFor(after, h, rank, t, o) == QueueFor(s, h, rank, t, o) + [cb]
            <==> (o in s.pool && s.pool[o] != []) || QueueFor(s, h, rank, t, o) == Seed(s, report, t, o)
  {
    hide TypewideFor, Family, Seed;
    var base, shown := Base(s, report, t, o), QueueFor(s, h, rank, t, o);
    assert AddedTo(s, report, t, o, cb, true).pool[o] == base + [cb];
    if base + [cb] == shown + [cb] {
      assert base == (base + [cb])[..|base|] && shown == (shown + [cb])[..|shown|];
    }
  }

  /** So it does for every object that is no report object, if the type has no derived types and an empty queue of
      the object's own does not hide typewide callbacks. */
  lemma AppendLists(s: Queues, h: Hierarchy, rank: map<TypeId, nat>, report: TypeId, t: TypeId, o: Target, cb: Callback,
                    on: set<Callback>)
    requires WellTyped(s, h, rank, report) && t in h && t in o.types && !o.isReport && h[t] == []
    requires o in s.pool ==> s.pool[o] != []
    requires cb !in QueueFor(s, h, rank, t, o) && cb !in s.typewide[t] && cb in on
    ensures var after := AddedTo(s, report, t, o, cb, true);
            Forward(QueueFor(after, h, rank, t, o), on, 0) == Forward(QueueFor(s, h, rank, t, o), on, 0) + [cb]
  {
    hide Forward, Select;
    assert [] + s.typewide[t] == s.typewide[t];
    AppendExtends(s, h, rank, report, t, o, cb);
    var q := QueueFor(s, h, rank, t, o);
    NoFirst(s, h, rank, t, h[t], o);
    assert TypewideFor(s, h, rank, t, o) == Some(s.typewide[t]);
    assert QueueFor(AddedTo(s, report, t, o, cb, true), h, rank, t, o) == q + [cb];
    ForwardLists(q, on, 0);
    ForwardLists(q + [cb], on, 0);
    SelectLast(q, cb, Among(on));
    assert q[0..] == q && (q + [cb])[0..] == q + [cb];
  }
}
