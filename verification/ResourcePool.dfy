/** The resource pool: every resource is filed in a queue under its name and in one under its type. */
module ResourcePool {
  import opened Options
  import opened Regex
  import opened Glob
  import opened GlobMatching
  import opened OrderedKeys
  import opened Sequences

  type TypeHandle = nat

  /** unsigned int */
  type UInt32 = n: nat | n < 0x1_0000_0000

  const DEFAULT_PRECEDENCE: UInt32 := 1000

  datatype Priority = High | Low

  class Resource<V> {
    const name: string
    const typeHandle: TypeHandle
    const isRegexName: bool
    const scope: string
    var precedence: UInt32
    var readOnly: bool
    var val: V

    constructor (name: string, scope: string, typeHandle: TypeHandle, initial: V)
      ensures this.name == name && this.typeHandle == typeHandle && isRegexName == HasWildcard(name)
      ensures this.scope == GlobToRe(scope) && precedence == DEFAULT_PRECEDENCE && !readOnly && val == initial
    {
      this.name, this.typeHandle, this.isRegexName := name, typeHandle, HasWildcard(name);
      this.scope, precedence, readOnly, val := GlobToRe(scope), DEFAULT_PRECEDENCE, false, initial;
    }

    predicate MatchScope(engine: Engine, s: string)
    {
      Accepts(engine, scope, s)
    }

    method Write(t: V)
      modifies `val
      ensures val == if readOnly then old(val) else t
    {
      if readOnly {
        return;
      }
      val := t;
    }

    method Read() returns (t: V)
      ensures t == val
    {
      t := val;
    }
  }

  // ----- what the operations do to the tables

  datatype Tables<!V> = Tables(rtab: map<string, seq<Resource<V>>>, ttab: map<TypeHandle, seq<Resource<V>>>)

  function Queue<K(==), R>(tab: map<K, seq<R>>, k: K): seq<R> {
    if k in tab then tab[k] else []
  }

  datatype Op<!V> =
    | Insert(r: Resource<V>, nameOverride: bool, typeOverride: bool)
    | MoveName(r: Resource<V>, pri: Priority)
    | MoveType(r: Resource<V>, pri: Priority)

  function Push<R>(q: seq<R>, r: R, front: bool): seq<R> {
    if front then [r] + q else q + [r]
  }

  function FirstIndex<R(==)>(q: seq<R>, r: R): (i: nat)
    ensures i <= |q| && (i < |q| ==> q[i] == r) && r !in q[..i]
    ensures i < |q| <==> r in q
  {
    if q == [] || q[0] == r then 0 else FirstIndex(q[1..], r) + 1
  }

  /** The first occurrence of `r` moves to one end; a queue without `r` stays as it is. */
  function Moved<R(==)>(q: seq<R>, r: R, pri: Priority): seq<R> {
    var i := FirstIndex(q, r);
    if i == |q| then q else Push(q[..i] + q[i + 1..], r, pri == High)
  }

  function Step<V>(t: Tables<V>, op: Op<V>): Tables<V> {
    match op
    case Insert(r, nameOverride, typeOverride) =>
      Tables(if r.name == "" then t.rtab else t.rtab[r.name := Push(Queue(t.rtab, r.name), r, nameOverride)],
             t.ttab[r.typeHandle := Push(Queue(t.ttab, r.typeHandle), r, typeOverride)])
    case MoveName(r, pri) =>
      if r.name in t.rtab then t.(rtab := t.rtab[r.name := Moved(t.rtab[r.name], r, pri)]) else t
    case MoveType(r, pri) =>
      if r.typeHandle in t.ttab then t.(ttab := t.ttab[r.typeHandle := Moved(t.ttab[r.typeHandle], r, pri)]) else t
  }

  function Run<V>(ops: seq<Op<V>>): Tables<V> {
    if ops == [] then Tables(map[], map[]) else Step(Run(ops[..|ops| - 1]), ops[|ops| - 1])
  }

  // ----- the pool

  class ResourcePool<V> {
    const engine: Engine
    var rtab: map<string, seq<Resource<V>>>
    var ttab: map<TypeHandle, seq<Resource<V>>>
    var hasWildcardNames: bool

    function State(): Tables<V>
      reads this
    {
      Tables(rtab, ttab)
    }

    /** The fast path may be taken only while no wildcard name has been filed. */
    ghost predicate Valid()
      reads this
    {
      && (forall n :: n in rtab ==> n != "" && forall r :: r in rtab[n] ==> r.name == n)
      && (forall t :: t in ttab ==> forall r :: r in ttab[t] ==> r.typeHandle == t)
      && (!hasWildcardNames ==> forall n :: n in rtab ==> !HasWildcard(n))
    }

    constructor (engine: Engine)
      ensures Valid() && State() == Tables(map[], map[]) && !hasWildcardNames && this.engine == engine
    {
      this.engine := engine;
      rtab, ttab, hasWildcardNames := map[], map[], false;
    }

    /** Files a resource; bit 1 of `override` puts it in front of its name queue, bit 0 in front of its type queue. */
    method Set(rsrc: Resource?<V>, override: nat)
      requires Valid() && (rsrc != null ==> rsrc.isRegexName == HasWildcard(rsrc.name))
      modifies this
      ensures Valid()
      ensures State() == if rsrc == null then old(State())
                         else Step(old(State()), Insert(rsrc, override / 2 % 2 == 1, override % 2 == 1))
      ensures hasWildcardNames == (old(hasWildcardNames) || (rsrc != null && HasWildcard(rsrc.name)))
    {
      hide HasWildcard;
      if rsrc == null {
        return;
      }
      var name := rsrc.name;
      if name != "" {
        var rq: seq<Resource<V>> := if name in rtab then rtab[name] else [];
        if override / 2 % 2 == 1 {
          rq := [rsrc] + rq;
        } else {
          rq := rq + [rsrc];
        }
        rtab := rtab[name := rq];
      }
      var typeHandle := rsrc.typeHandle;
      var rq: seq<Resource<V>> := if typeHandle in ttab then ttab[typeHandle] else [];
      if override % 2 == 1 {
        rq := [rsrc] + rq;
      } else {
        rq := rq + [rsrc];
      }
      ttab := ttab[typeHandle := rq];
      if rsrc.isRegexName {
        hasWildcardNames := true;
      }
    }

    /** Moves the first occurrence of `rsrc` to an end of the queue; refuses if there is none. */
    method SetPriorityQueue(rsrc: Resource<V>, q: seq<Resource<V>>, pri: Priority) returns (q': seq<Resource<V>>)
      ensures q' == Moved(q, rsrc, pri) && MovedTo<Resource<V>>(q, q', rsrc, pri)
    {
      var r: Resource?<V> := null;
      var i := 0;
      while i < |q|
        invariant i <= |q| && rsrc !in q[..i]
        invariant r != null ==> r != rsrc
      {
        r := q[i];
        if r == rsrc {
          break;
        }
        i := i + 1;
      }
      if r != rsrc {
        assert q[..i] == q;
        return q;
      }
      FirstIndexAt(q, rsrc, i);
      q' := q[..i] + q[i + 1..];
      match pri
      case High => q' := [rsrc] + q';
      case Low => q' := q' + [rsrc];
    }

    method SetPriorityType(rsrc: Resource?<V>, pri: Priority)
      requires Valid()
      modifies `ttab
      ensures Valid()
      ensures State() == if rsrc == null then old(State()) else Step(old(State()), MoveType(rsrc, pri))
      ensures if rsrc == null || rsrc.typeHandle !in old(ttab) then ttab == old(ttab)
              else && ttab.Keys == old(ttab).Keys
                   && MovedTo<Resource<V>>(old(ttab)[rsrc.typeHandle], ttab[rsrc.typeHandle], rsrc, pri)
                   && forall h :: h in ttab && h != rsrc.typeHandle ==> ttab[h] == old(ttab)[h]
    {
      hide Moved;
      if rsrc == null || rsrc.typeHandle !in ttab {
        return;
      }
      MovedPermutes<Resource<V>>(ttab[rsrc.typeHandle], rsrc, pri);
      var q := SetPriorityQueue(rsrc, ttab[rsrc.typeHandle], pri);
      ttab := ttab[rsrc.typeHandle := q];
    }

    method SetPriorityName(rsrc: Resource?<V>, pri: Priority)
      requires Valid()
      modifies `rtab
      ensures Valid()
      ensures State() == if rsrc == null then old(State()) else Step(old(State()), MoveName(rsrc, pri))
      ensures if rsrc == null || rsrc.name !in old(rtab) then rtab == old(rtab)
              else && rtab.Keys == old(rtab).Keys
                   && MovedTo<Resource<V>>(old(rtab)[rsrc.name], rtab[rsrc.name], rsrc, pri)
                   && forall n :: n in rtab && n != rsrc.name ==> rtab[n] == old(rtab)[n]
    {
      hide Moved;
      if rsrc == null || rsrc.name !in rtab {
        return;
      }
      MovedPermutes<Resource<V>>(rtab[rsrc.name], rsrc, pri);
      var q := SetPriorityQueue(rsrc, rtab[rsrc.name], pri);
      rtab := rtab[rsrc.name := q];
    }

    method SetPriority(rsrc: Resource?<V>, pri: Priority)
      requires Valid()
      modifies `rtab, `ttab
      ensures Valid()
      ensures State() == if rsrc == null then old(State())
                         else Step(Step(old(State()), MoveType(rsrc, pri)), MoveName(rsrc, pri))
      ensures rsrc != null ==>
                && MovedTo<Resource<V>>(Queue(old(rtab), rsrc.name), Queue(rtab, rsrc.name), rsrc, pri)
                && MovedTo<Resource<V>>(Queue(old(ttab), rsrc.typeHandle), Queue(ttab, rsrc.typeHandle), rsrc, pri)
    {
      hide Step;
      SetPriorityType(rsrc, pri);
      SetPriorityName(rsrc, pri);
    }

    /** The resources filed under exactly this name that the scope and the type, if given, can see. */
    method LookupName(scope: string, name: string, typeHandle: Option<TypeHandle>) returns (q: seq<Resource<V>>)
      requires Valid()
      ensures q == Visible(engine, Queue(rtab, name), scope, typeHandle)
      ensures forall r :: r in q <==> r in Queue(rtab, name) && Accepts(engine, r.scope, scope)
                                      && (typeHandle.None? || r.typeHandle == typeHandle.value)
    {
      hide Accepts;
      q := [];
      if name == "" || name !in rtab {
        return;
      }
      var rq := rtab[name];
      for i := 0 to |rq|
        invariant q == Visible(engine, rq[..i], scope, typeHandle)
      {
        var r := rq[i];
        VisibleLast(engine, rq[..i], r, scope, typeHandle);
        assert rq[..i + 1] == rq[..i] + [r];
        if r.MatchScope(engine, scope) && (typeHandle.None? || r.typeHandle == typeHandle.value) {
          q := q + [r];
        }
      }
      assert rq[..|rq|] == rq;
      VisibleMembers(engine, rq, scope, typeHandle);
    }

    /** The resources whose name, read as a glob, matches: by name alone while no wildcard name exists, else by
        going through the whole table in key order. */
    method LookupRegexNames(scope: string, name: string, typeHandle: Option<TypeHandle>)
      returns (q: seq<Resource<V>>, ghost order: seq<string>)
      requires Valid()
      ensures !hasWildcardNames ==> q == Visible(engine, Queue(rtab, name), scope, typeHandle)
      ensures hasWildcardNames ==>
                InOrder(order, rtab.Keys) && q == Scan(engine, rtab, order, scope, name, typeHandle)
    {
      hide Accepts, GlobToRe, Visible;
      order := [];
      if !hasWildcardNames {
        q := LookupName(scope, name, typeHandle);
        return;
      }
      var keys := KeysInOrder(rtab.Keys);
      order := keys;
      q := [];
      for i := 0 to |keys|
        invariant q == Scan(engine, rtab, keys[..i], scope, name, typeHandle)
      {
        var found := Matching(keys[i], rtab[keys[i]], scope, name, typeHandle);
        ScanLast(engine, rtab, keys[..i], keys[i], scope, name, typeHandle);
        assert keys[..i + 1] == keys[..i] + [keys[i]];
        q := q + found;
      }
      assert keys[..|keys|] == keys;
    }

    /** The inner loop: what one queue, filed under `re`, contributes. */
    method Matching(re: string, rq: seq<Resource<V>>, scope: string, name: string, typeHandle: Option<TypeHandle>)
      returns (q: seq<Resource<V>>)
      ensures q == if Accepts(engine, GlobToRe(re), name) then Visible(engine, rq, scope, typeHandle) else []
    {
      hide Accepts, GlobToRe;
      q := [];
      for j := 0 to |rq|
        invariant q == if Accepts(engine, GlobToRe(re), name) then Visible(engine, rq[..j], scope, typeHandle) else []
      {
        var r := rq[j];
        VisibleLast(engine, rq[..j], r, scope, typeHandle);
        assert rq[..j + 1] == rq[..j] + [r];
        if Accepts(engine, GlobToRe(re), name) {
          if r.MatchScope(engine, scope) && (typeHandle.None? || r.typeHandle == typeHandle.value) {
            q := q + [r];
          }
        }
      }
      assert rq[..|rq|] == rq;
    }
  }

  // ----- lookups

  predicate Sees<V>(engine: Engine, r: Resource<V>, scope: string, typeHandle: Option<TypeHandle>)
  {
    Accepts(engine, r.scope, scope) && (typeHandle.None? || r.typeHandle == typeHandle.value)
  }

  function Visible<V>(engine: Engine, q: seq<Resource<V>>, scope: string, typeHandle: Option<TypeHandle>)
    : seq<Resource<V>>
  {
    if q == [] then []
    else (if Sees(engine, q[0], scope, typeHandle) then [q[0]] else []) + Visible(engine, q[1..], scope, typeHandle)
  }

  lemma {:induction false} VisibleLast<V>(engine: Engine, q: seq<Resource<V>>, r: Resource<V>, scope: string,
                                          typeHandle: Option<TypeHandle>)
    ensures Visible(engine, q + [r], scope, typeHandle)
         == Visible(engine, q, scope, typeHandle) + if Sees(engine, r, scope, typeHandle) then [r] else []
  {
    hide Sees;
    if q == [] {
      assert q + [r] == [r] && [r][1..] == [];
    } else {
      VisibleLast(engine, q[1..], r, scope, typeHandle);
      assert (q + [r])[1..] == q[1..] + [r];
    }
  }

  lemma {:induction false} VisibleWithin<V>(engine: Engine, q: seq<Resource<V>>, scope: string,
                                            typeHandle: Option<TypeHandle>, r: Resource<V>)
    requires r in Visible(engine, q, scope, typeHandle)
    ensures r in q
  {
    hide Sees;
    if r != q[0] {
      VisibleWithin(engine, q[1..], scope, typeHandle, r);
    }
  }

  ghost function Seen<V>(engine: Engine, scope: string, typeHandle: Option<TypeHandle>): Resource<V> -> bool {
    (r: Resource<V>) => Sees(engine, r, scope, typeHandle)
  }

  /** What is visible are the resources that scope and type admit, in the order of the queue. */
  lemma {:induction false} VisibleSelects<V>(engine: Engine, q: seq<Resource<V>>, scope: string,
                                             typeHandle: Option<TypeHandle>)
    ensures Visible(engine, q, scope, typeHandle) == Select(q, Seen(engine, scope, typeHandle))
  {
    hide Sees;
    if q != [] {
      VisibleSelects(engine, q[1..], scope, typeHandle);
    }
  }

  lemma VisibleMembers<V>(engine: Engine, q: seq<Resource<V>>, scope: string, typeHandle: Option<TypeHandle>)
    ensures forall r :: r in Visible(engine, q, scope, typeHandle) <==>
              r in q && Accepts(engine, r.scope, scope) && (typeHandle.None? || r.typeHandle == typeHandle.value)
  {
    hide Accepts, Select;
    VisibleSelects(engine, q, scope, typeHandle);
    forall r
      ensures r in Select(q, Seen(engine, scope, typeHandle)) <==> r in q && Sees(engine, r, scope, typeHandle)
    {
      SelectCount(q, Seen(engine, scope, typeHandle), r);
    }
  }

  ghost function Scan<V>(engine: Engine, rtab: map<string, seq<Resource<V>>>, order: seq<string>, scope: string,
                         name: string, typeHandle: Option<TypeHandle>): seq<Resource<V>>
    requires forall k :: k in order ==> k in rtab
  {
    if order == [] then []
    else (if Accepts(engine, GlobToRe(order[0]), name) then Visible(engine, rtab[order[0]], scope, typeHandle) else [])
         + Scan(engine, rtab, order[1..], scope, name, typeHandle)
  }

  /** A resource is scanned just when some accepted name holds it visibly. */
  lemma {:induction false} ScanHolds<V>(engine: Engine, rtab: map<string, seq<Resource<V>>>, order: seq<string>,
                                        scope: string, name: string, typeHandle: Option<TypeHandle>, r: Resource<V>)
    requires forall k :: k in order ==> k in rtab
    ensures r in Scan(engine, rtab, order, scope, name, typeHandle) <==>
            exists k :: k in order && Accepts(engine, GlobToRe(k), name) && r in Visible(engine, rtab[k], scope, typeHandle)
  {
    hide Accepts, GlobToRe, Visible;
    if order != [] {
      ScanHolds(engine, rtab, order[1..], scope, name, typeHandle, r);
      assert order == [order[0]] + order[1..];
    }
  }

  lemma {:induction false} ScanLast<V>(engine: Engine, rtab: map<string, seq<Resource<V>>>, order: seq<string>,
                                       k: string, scope: string, name: string, typeHandle: Option<TypeHandle>)
    requires k in rtab && forall j :: j in order ==> j in rtab
    ensures Scan(engine, rtab, order + [k], scope, name, typeHandle)
         == Scan(engine, rtab, order, scope, name, typeHandle)
            + if Accepts(engine, GlobToRe(k), name) then Visible(engine, rtab[k], scope, typeHandle) else []
  {
    hide Accepts, Visible, GlobToRe;
    if order == [] {
      assert order + [k] == [k] && [k][1..] == [];
    } else {
      ScanLast(engine, rtab, order[1..], k, scope, name, typeHandle);
      assert (order + [k])[1..] == order[1..] + [k];
    }
  }

  // ----- moves

  lemma {:induction false} FirstIndexAt<R>(q: seq<R>, r: R, i: nat)
    requires i < |q| && q[i] == r && r !in q[..i]
    ensures FirstIndex(q, r) == i
  {
    if i > 0 {
      assert q[0] in q[..i];
      assert q[1..][..i - 1] == q[..i][1..];
      FirstIndexAt(q[1..], r, i - 1);
    }
  }

  lemma WithoutOne<R>(q: seq<R>, i: nat)
    requires i < |q|
    ensures multiset(q[..i] + q[i + 1..]) + multiset{q[i]} == multiset(q)
  {
    assert q == q[..i] + ([q[i]] + q[i + 1..]);
    assert multiset(q) == multiset(q[..i]) + multiset([q[i]] + q[i + 1..]);
  }

  ghost predicate SameElements<R>(a: seq<R>, b: seq<R>) {
    (forall x :: x in a ==> x in b) && (forall x :: x in b ==> x in a)
  }

  lemma SameMembers<R>(a: seq<R>, b: seq<R>)
    requires multiset(a) == multiset(b)
    ensures SameElements(a, b)
  {
    assert forall x :: x in a <==> x in multiset(a);
    assert forall x :: x in b <==> x in multiset(b);
  }

  /** A priority move only permutes the queue. */
  lemma MovedPermutes<R>(q: seq<R>, r: R, pri: Priority)
    ensures multiset(Moved(q, r, pri)) == multiset(q)
    ensures SameElements(Moved(q, r, pri), q)
  {
    hide FirstIndex, Push, SameElements;
    var i := FirstIndex(q, r);
    if i < |q| {
      WithoutOne(q, i);
      PushCounts(q[..i] + q[i + 1..], r, pri == High);
    }
    SameMembers(Moved(q, r, pri), q);
  }

  /** The first occurrence goes to the requested end and the others keep their order. */
  lemma MovedToEnd<R>(q: seq<R>, r: R, pri: Priority)
    requires r in q
    ensures var i, m := FirstIndex(q, r), Moved(q, r, pri);
            && |m| == |q| && r !in q[..i]
            && if pri == High then m[0] == r && m[1..] == q[..i] + q[i + 1..]
               else m[|q| - 1] == r && m[..|q| - 1] == q[..i] + q[i + 1..]
  {
    hide FirstIndex;
  }

  /** From `q` to `q'` the first occurrence of `r` has gone to one end, all others keeping their order; without one
      nothing has changed. */
  ghost predicate MovedTo<R>(q: seq<R>, q': seq<R>, r: R, pri: Priority) {
    if r !in q then q' == q
    else exists i :: 0 <= i < |q| && q[i] == r && r !in q[..i] &&
           var others := q[..i] + q[i + 1..];
           q' == if pri.High? then [r] + others else others + [r]
  }

  lemma PushCounts<R>(q: seq<R>, r: R, front: bool)
    ensures multiset(Push(q, r, front)) == multiset(q) + multiset{r}
  {
  }
}
