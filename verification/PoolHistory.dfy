/** What the two tables of the pool hold after any history of operations. */
module PoolHistory {
  import opened Options
  import opened Regex
  import opened Glob
  import opened GlobMatching
  import opened OrderedKeys
  import opened ResourcePool

  // ----- both tables hold the same named resources

  /** How often `r` is filed under its name, and under its type. */
  function NameCount<V>(t: Tables<V>, r: Resource<V>): nat {
    multiset(Queue(t.rtab, r.name))[r]
  }

  function TypeCount<V>(t: Tables<V>, r: Resource<V>): nat {
    multiset(Queue(t.ttab, r.typeHandle))[r]
  }

  /** Resources are only ever filed under their own name and their own type, never under the empty name. */
  ghost predicate Keyed<V>(t: Tables<V>) {
    && (forall n :: n in t.rtab ==> n != "" && forall r :: r in t.rtab[n] ==> r.name == n)
    && (forall h :: h in t.ttab ==> forall r :: r in t.ttab[h] ==> r.typeHandle == h)
  }

  lemma StepKeyed<V>(t: Tables<V>, op: Op<V>)
    requires Keyed(t)
    ensures Keyed(Step(t, op))
  {
    hide Moved;
    match op
    case MoveName(r, pri) => if r.name in t.rtab { MovedPermutes(t.rtab[r.name], r, pri); }
    case MoveType(r, pri) => if r.typeHandle in t.ttab { MovedPermutes(t.ttab[r.typeHandle], r, pri); }
    case _ =>
  }

  lemma StepCounts<V>(t: Tables<V>, op: Op<V>, r: Resource<V>)
    requires r.name != ""
    ensures NameCount(Step(t, op), r) == NameCount(t, r) + if op.Insert? && op.r == r then 1 else 0
    ensures TypeCount(Step(t, op), r) == TypeCount(t, r) + if op.Insert? && op.r == r then 1 else 0
  {
    hide Moved, Push, SameElements;
    match op
    case Insert(x, nameOverride, typeOverride) =>
      InsertCounts(t, x, nameOverride, typeOverride, r);
    case MoveName(x, pri) => if x.name in t.rtab { MovedPermutes(t.rtab[x.name], x, pri); }
    case MoveType(x, pri) => if x.typeHandle in t.ttab { MovedPermutes(t.ttab[x.typeHandle], x, pri); }
  }

  lemma InsertCounts<V>(t: Tables<V>, x: Resource<V>, nameOverride: bool, typeOverride: bool, r: Resource<V>)
    requires r.name != ""
    ensures NameCount(Step(t, Insert(x, nameOverride, typeOverride)), r) == NameCount(t, r) + if x == r then 1 else 0
    ensures TypeCount(Step(t, Insert(x, nameOverride, typeOverride)), r) == TypeCount(t, r) + if x == r then 1 else 0
  {
    hide Push, Step;
    StepQueue(t, Insert(x, nameOverride, typeOverride), ByName(r.name));
    StepQueue(t, Insert(x, nameOverride, typeOverride), ByType(r.typeHandle));
    if x.name == r.name {
      PushCount(Queue(t.rtab, x.name), x, nameOverride, r);
    }
    if x.typeHandle == r.typeHandle {
      PushCount(Queue(t.ttab, x.typeHandle), x, typeOverride, r);
    }
  }

  lemma PushCount<R>(q: seq<R>, x: R, front: bool, r: R)
    ensures multiset(Push(q, x, front))[r] == multiset(q)[r] + if x == r then 1 else 0
  {
    hide Push;
    PushCounts(q, x, front);
  }

  lemma {:induction false} RunKeyed<V>(ops: seq<Op<V>>)
    ensures Keyed(Run(ops))
    decreases |ops|
  {
    if ops != [] {
      RunKeyed(ops[..|ops| - 1]);
      StepKeyed(Run(ops[..|ops| - 1]), ops[|ops| - 1]);
    }
  }

  /** After any mix of insertions and priority moves, every named resource occurs in the name table exactly as
      often as in the type table; together with `Keyed`, the two tables hold the same multiset of them. */
  lemma {:induction false} TablesAgree<V>(ops: seq<Op<V>>, r: Resource<V>)
    requires r.name != ""
    ensures Keyed(Run(ops)) && NameCount(Run(ops), r) == TypeCount(Run(ops), r)
    decreases |ops|
  {
    RunKeyed(ops);
    if ops != [] {
      var before, op := ops[..|ops| - 1], ops[|ops| - 1];
      TablesAgree(before, r);
      StepCounts(Run(before), op, r);
    }
  }

  // ----- the order within a queue

  datatype Key = ByName(name: string) | ByType(h: TypeHandle)

  function QueueOf<V>(t: Tables<V>, k: Key): seq<Resource<V>> {
    match k
    case ByName(name) => Queue(t.rtab, name)
    case ByType(h) => Queue(t.ttab, h)
  }

  /** Whether an insertion files its resource under `k`, and whether it then overrides. */
  predicate FiledUnder<V>(op: Op<V>, k: Key)
    requires op.Insert?
  {
    match k
    case ByName(name) => op.r.name == name
    case ByType(h) => op.r.typeHandle == h
  }

  predicate Overrides<V>(op: Op<V>, k: Key)
    requires op.Insert?
  {
    if k.ByName? then op.nameOverride else op.typeOverride
  }

  /** The overriding insertions under `k`, newest first. */
  function Overriding<V>(ops: seq<Op<V>>, k: Key): seq<Resource<V>>
    requires forall op :: op in ops ==> op.Insert?
  {
    if ops == [] then []
    else
      var op := ops[|ops| - 1];
      assert op in ops;
      (if FiledUnder(op, k) && Overrides(op, k) then [op.r] else []) + Overriding(ops[..|ops| - 1], k)
  }

  /** The ordinary ones, oldest first. */
  function Ordinary<V>(ops: seq<Op<V>>, k: Key): seq<Resource<V>>
    requires forall op :: op in ops ==> op.Insert?
  {
    if ops == [] then []
    else
      var op := ops[|ops| - 1];
      assert op in ops;
      Ordinary(ops[..|ops| - 1], k) + (if FiledUnder(op, k) && !Overrides(op, k) then [op.r] else [])
  }

  lemma StepQueue<V>(t: Tables<V>, op: Op<V>, k: Key)
    requires op.Insert? && k != ByName("")
    ensures QueueOf(Step(t, op), k)
         == if FiledUnder(op, k) then Push(QueueOf(t, k), op.r, Overrides(op, k)) else QueueOf(t, k)
  {
    hide Push;
  }

  lemma PushOrder<R>(a: seq<R>, b: seq<R>, r: R, front: bool)
    ensures Push(a + b, r, front) == if front then ([r] + a) + b else a + (b + [r])
  {
  }

  lemma Latest<V>(ops: seq<Op<V>>, k: Key)
    requires ops != [] && forall op :: op in ops ==> op.Insert?
    ensures var before, op := ops[..|ops| - 1], ops[|ops| - 1];
            assert op in ops;
            var filed, front := FiledUnder(op, k), Overrides(op, k);
            && Overriding(ops, k) == (if filed && front then [op.r] + Overriding(before, k) else Overriding(before, k))
            && Ordinary(ops, k) == if filed && !front then Ordinary(before, k) + [op.r] else Ordinary(before, k)
  {
    hide FiledUnder, Overrides;
  }

  /** After any history of insertions the queue of a name, or of a type, lists the overriding ones newest first and
      then the ordinary ones oldest first. */
  lemma {:induction false} QueueOrder<V>(ops: seq<Op<V>>, k: Key)
    requires k != ByName("") && forall op :: op in ops ==> op.Insert?
    ensures QueueOf(Run(ops), k) == Overriding(ops, k) + Ordinary(ops, k)
    decreases |ops|
  {
    hide Push, Step;
    if ops != [] {
      hide FiledUnder, Overrides, QueueOf, Overriding, Ordinary;
      var before, op := ops[..|ops| - 1], ops[|ops| - 1];
      assert op in ops;
      QueueOrder(before, k);
      StepQueue(Run(before), op, k);
      Latest(ops, k);
      PushOrder(Overriding(before, k), Ordinary(before, k), op.r, Overrides(op, k));
    }
  }

  // ----- the fast path agrees with the scan

  /** Names for which matching by regular expression is matching by equality. */
  predicate PlainName(engine: Engine, name: string) {
    !HasWildcard(name) && Faithful(engine, name)
  }

  lemma PlainNameMatchesItself(engine: Engine, k: string, name: string)
    requires PlainName(engine, k)
    ensures Accepts(engine, GlobToRe(k), name) <==> name == k
  {
    hide Accepts, GlobToRe, Modelled;
    TranslationSound(engine, k, name);
    LiteralGlob(k, name);
  }

  lemma {:induction false} ScanOne<V>(engine: Engine, rtab: map<string, seq<Resource<V>>>, order: seq<string>,
                                      scope: string, name: string, typeHandle: Option<TypeHandle>)
    requires forall k :: k in order ==> k in rtab
    requires forall k :: k in order && Visible(engine, rtab[k], scope, typeHandle) != [] ==> PlainName(engine, k)
    requires forall i, j :: 0 <= i < j < |order| ==> order[i] != order[j]
    ensures Scan(engine, rtab, order, scope, name, typeHandle)
         == if name in order then Visible(engine, rtab[name], scope, typeHandle) else []
    decreases |order|
  {
    hide Accepts, GlobToRe, Visible, PlainName;
    if order != [] {
      assert order[0] in order && forall i :: 0 <= i < |order[1..]| ==> order[1..][i] == order[i + 1];
      ScanOne(engine, rtab, order[1..], scope, name, typeHandle);
      assert order == [order[0]] + order[1..];
      if Visible(engine, rtab[order[0]], scope, typeHandle) != [] {
        PlainNameMatchesItself(engine, order[0], name);
      }
    }
  }

  /** When every name holding something visible is plain, looking up by name alone gives the same queue, in the same
      order, as matching every name in the table as a regular expression. */
  lemma FastPathAgrees<V>(engine: Engine, rtab: map<string, seq<Resource<V>>>, order: seq<string>,
                          scope: string, name: string, typeHandle: Option<TypeHandle>)
    requires InOrder(order, rtab.Keys)
    requires forall k :: k in rtab && Visible(engine, rtab[k], scope, typeHandle) != [] ==> PlainName(engine, k)
    ensures Scan(engine, rtab, order, scope, name, typeHandle)
         == Visible(engine, Queue(rtab, name), scope, typeHandle)
  {
    hide Accepts, GlobToRe, PlainName;
    forall i, j | 0 <= i < j < |order|
      ensures order[i] != order[j]
    {
      DistinctInOrder(order, rtab.Keys, i, j);
    }
    ScanOne(engine, rtab, order, scope, name, typeHandle);
  }

  /** A table as the pool keeps it while no wildcard name is in use. */
  ghost predicate WildcardFree<V>(rtab: map<string, seq<Resource<V>>>) {
    forall k :: k in rtab ==> !HasWildcard(k) && Modelled(k) && forall r :: r in rtab[k] ==> r.name == k
  }

  /** The condition is exact: for every table of wildcard-free names the two paths agree on all lookups just when
      each name that holds something visible has no anchor and, for POSIX, a translation not too long for the
      matcher. */
  lemma FastPathExact<V>(engine: Engine, rtab: map<string, seq<Resource<V>>>, order: seq<string>, scope: string,
                         typeHandle: Option<TypeHandle>)
    requires InOrder(order, rtab.Keys) && WildcardFree(rtab)
    ensures (forall name :: Scan(engine, rtab, order, scope, name, typeHandle)
                            == Visible(engine, Queue(rtab, name), scope, typeHandle))
       <==> forall k :: k in rtab && Visible(engine, rtab[k], scope, typeHandle) != [] ==>
              AnchorFree(k) && ShortEnough(engine, k)
  {
    hide Accepts, GlobToRe, Modelled, Visible;
    if k :| k in rtab && Visible(engine, rtab[k], scope, typeHandle) != [] && !(AnchorFree(k) && ShortEnough(engine, k)) {
      var name := FastPathFails(engine, rtab, order, scope, typeHandle, k);
    } else {
      forall name
        ensures Scan(engine, rtab, order, scope, name, typeHandle) == Visible(engine, Queue(rtab, name), scope, typeHandle)
      {
        FastPathAgrees(engine, rtab, order, scope, name, typeHandle);
      }
    }
  }

  /** A visible name that is not translated faithfully leads some lookup astray. */
  lemma FastPathFails<V>(engine: Engine, rtab: map<string, seq<Resource<V>>>, order: seq<string>, scope: string,
                         typeHandle: Option<TypeHandle>, k: string) returns (name: string)
    requires InOrder(order, rtab.Keys) && WildcardFree(rtab)
    requires k in rtab && Visible(engine, rtab[k], scope, typeHandle) != [] && !(AnchorFree(k) && ShortEnough(engine, k))
    ensures Scan(engine, rtab, order, scope, name, typeHandle) != Visible(engine, Queue(rtab, name), scope, typeHandle)
  {
    hide Accepts, GlobToRe, Modelled, GlobMatches, AnchorFree, ShortEnough, Scan;
    TranslationExact(engine, k);
    name :| Accepts(engine, GlobToRe(k), name) != GlobMatches(k, name);
    LiteralGlob(k, name);
    var r := Visible(engine, rtab[k], scope, typeHandle)[0];
    ScanHolds(engine, rtab, order, scope, name, typeHandle, r);
    VisibleNamed(engine, rtab, scope, typeHandle, r);
    assert k in order;
  }

  /** What is visible under a name bears that name. */
  lemma VisibleNamed<V>(engine: Engine, rtab: map<string, seq<Resource<V>>>, scope: string,
                        typeHandle: Option<TypeHandle>, r: Resource<V>)
    requires WildcardFree(rtab)
    ensures forall k :: r in Visible(engine, Queue(rtab, k), scope, typeHandle) ==> r.name == k && k in rtab
  {
    hide Modelled;
    forall k | r in Visible(engine, Queue(rtab, k), scope, typeHandle)
      ensures r.name == k && k in rtab
    {
      VisibleWithin(engine, Queue(rtab, k), scope, typeHandle, r);
    }
  }
}
