/** Configuration settings: every set files a new resource in front of its queues, and get chooses by precedence. */
module ConfigDb {
  import opened Options
  import opened Regex
  import opened Glob
  import opened GlobMatching
  import opened OrderedKeys
  import opened ResourcePool
  import opened PoolHistory
  import opened Precedence
  import opened Sequences

  /** What a setting reads of a component: its identity, its UVM name and its hierarchical SystemC name. */
  datatype Component = Component(id: nat, fullName: string, hierarchicalName: string)

  function Depth(c: Component): nat {
    if c.hierarchicalName == "" then 0 else multiset(c.hierarchicalName)['.'] + 1
  }

  /** The instance name a call means, seen from its context. */
  function Located(cntxt: Component, top: Component, inst: string): string {
    if inst == "" then cntxt.fullName
    else if cntxt.fullName != "" && cntxt != top then cntxt.fullName + "." + inst
    else inst
  }

  /** Unsigned subtraction, so a depth beyond the default wraps around. */
  function PrecedenceOf(inBuild: bool, depth: nat): UInt32 {
    if inBuild then (DEFAULT_PRECEDENCE - depth) % 0x1_0000_0000 else DEFAULT_PRECEDENCE
  }

  datatype Setting<+V> = Setting(typeHandle: TypeHandle, scope: string, field: string, inBuild: bool, depth: nat, value: V) {
    function Precedence(): UInt32 {
      PrecedenceOf(inBuild, depth)
    }

    /** Whether the setting is for this type, instance and field. While only plain field names are in use a field
        means itself; after that every field is read as a glob. Settings without a field name are never found. */
    predicate Covers(q: Query) {
      && field != "" && typeHandle == q.typeHandle && Accepts(q.engine, GlobToRe(scope), q.inst)
      && if q.plain then field == q.name else Accepts(q.engine, GlobToRe(field), q.name)
    }
  }

  datatype Query = Query(engine: Engine, plain: bool, typeHandle: TypeHandle, inst: string, name: string)

  // ----- which setting wins

  /** A covering setting with the greatest precedence. */
  ghost predicate Greatest<V>(history: seq<Setting<V>>, i: nat, q: Query) {
    && i < |history| && history[i].Covers(q)
    && forall j :: 0 <= j < |history| && history[j].Covers(q) ==> history[j].Precedence() <= history[i].Precedence()
  }

  /** Setting `i` is preferred to setting `j`: greater precedence, else the field name first in map order, else made
      later. */
  ghost predicate Preferred<V>(history: seq<Setting<V>>, i: nat, j: nat)
    requires i < |history| && j < |history|
  {
    var a, b := history[i], history[j];
    || a.Precedence() > b.Precedence()
    || (a.Precedence() == b.Precedence() && (Before(a.field, b.field) || (a.field == b.field && i >= j)))
  }

  /** The covering setting preferred to all others. */
  ghost predicate Wins<V>(history: seq<Setting<V>>, i: nat, q: Query) {
    && i < |history| && history[i].Covers(q)
    && forall j :: 0 <= j < |history| && history[j].Covers(q) ==> Preferred(history, i, j)
  }

  /** While only plain field names are in use that is the latest of the covering settings with the greatest
      precedence. */
  lemma PlainWinnerIsLatest<V>(history: seq<Setting<V>>, i: nat, q: Query)
    requires q.plain && i < |history| && history[i].Covers(q)
    ensures Wins(history, i, q) <==>
            && (forall j :: 0 <= j < |history| && history[j].Covers(q) ==>
                  history[j].Precedence() <= history[i].Precedence())
            && forall j :: i < j < |history| && history[j].Covers(q) ==> history[j].Precedence() < history[i].Precedence()
  {
    hide Accepts, GlobToRe, PrecedenceOf, Before;
    BeforeIrreflexive(history[i].field);
    if Wins(history, i, q) {
      forall j | 0 <= j < |history| && history[j].Covers(q)
        ensures history[j].Precedence() <= history[i].Precedence()
        ensures j > i ==> history[j].Precedence() < history[i].Precedence()
      {
        assert Preferred(history, i, j);
      }
    }
  }

  lemma PreferredTotal<V>(history: seq<Setting<V>>, i: nat, j: nat)
    requires i < |history| && j < |history|
    ensures Preferred(history, i, j) || Preferred(history, j, i)
    ensures Preferred(history, i, j) && Preferred(history, j, i) ==> i == j
  {
    hide PrecedenceOf, Before;
    var a, b := history[i].field, history[j].field;
    BeforeTotal(a, b);
    BeforeIrreflexive(a);
    if Before(a, b) && Before(b, a) {
      BeforeTransitive(a, b, a);
    }
  }

  lemma PreferredTransitive<V>(history: seq<Setting<V>>, i: nat, j: nat, k: nat)
    requires i < |history| && j < |history| && k < |history|
    requires Preferred(history, i, j) && Preferred(history, j, k)
    ensures Preferred(history, i, k)
  {
    hide PrecedenceOf, Before;
    var a, b, c := history[i].field, history[j].field, history[k].field;
    if Before(a, b) && Before(b, c) {
      BeforeTransitive(a, b, c);
    }
  }

  /** Of two settings made during build the one made nearer the root has the greater precedence, unless the
      subtraction wraps around for the deeper one only. */
  lemma DepthOrder(near: nat, far: nat)
    requires near < far < 0x1_0000_0000
    ensures PrecedenceOf(true, near) > PrecedenceOf(true, far) <==> far <= DEFAULT_PRECEDENCE || near > DEFAULT_PRECEDENCE
  {
    WrapAround(near);
    WrapAround(far);
  }

  lemma WrapAround(depth: nat)
    requires depth < 0x1_0000_0000
    ensures PrecedenceOf(true, depth)
         == DEFAULT_PRECEDENCE - depth + if depth <= DEFAULT_PRECEDENCE then 0 else 0x1_0000_0000
  {
  }

  /** So during build a setting made nearer the root beats every later one made further down. */
  lemma NearerWins<V>(history: seq<Setting<V>>, near: nat, far: nat, q: Query)
    requires near < |history| && history[near].Covers(q) && history[near].inBuild
    requires far < |history| && history[far].inBuild && history[near].depth < history[far].depth <= DEFAULT_PRECEDENCE
    ensures !Greatest(history, far, q)
  {
    DepthOrder(history[near].depth, history[far].depth);
  }

  /** A setting made outside build has the precedence 1000, so it is greater than one made during build just when that
      was made at a depth from 1 to 1000; at depth 0 the two are equal. */
  lemma OutsideBuildOrder(here: nat, depth: nat)
    requires depth < 0x1_0000_0000
    ensures PrecedenceOf(false, here) == 1000
    ensures PrecedenceOf(false, here) > PrecedenceOf(true, depth) <==> 1 <= depth <= 1000
    ensures PrecedenceOf(false, here) == PrecedenceOf(true, depth) <==> depth == 0
  {
    WrapAround(depth);
  }

  /** So a covering setting made outside build beats every one made during build beneath the root, earlier or later. */
  lemma OutsideBuildWins<V>(history: seq<Setting<V>>, outside: nat, during: nat, q: Query)
    requires outside < |history| && history[outside].Covers(q) && !history[outside].inBuild
    requires during < |history| && history[during].inBuild && 1 <= history[during].depth <= 1000
    ensures !Greatest(history, during, q) && !Wins(history, during, q)
  {
    OutsideBuildOrder(history[outside].depth, history[during].depth);
    if Wins(history, during, q) {
      WinnerIsGreatest(history, during, q);
    }
  }

  /** Of two settings made outside build, or by components of equal depth during build, the later one wins. */
  lemma LaterWins<V>(history: seq<Setting<V>>, early: nat, late: nat, q: Query)
    requires early < late < |history| && history[early].Covers(q) && history[late].Covers(q) && q.plain
    requires history[early].inBuild == history[late].inBuild
    requires history[early].inBuild ==> history[early].depth == history[late].depth
    ensures !Wins(history, early, q)
  {
    hide Accepts, GlobToRe;
    PlainWinnerIsLatest(history, early, q);
  }

  // ----- where a setting is located

  /** The root has depth 0, top-level components have depth 1, and a child is one deeper than its parent. */
  lemma DepthOfChild(parent: Component, child: Component, name: string)
    requires name != "" && '.' !in name
    requires child.hierarchicalName == if parent.hierarchicalName == "" then name else parent.hierarchicalName + "." + name
    ensures Depth(child) == Depth(parent) + 1 && (parent.hierarchicalName == "" ==> Depth(parent) == 0)
  {
    assert multiset(name)['.'] == 0;
  }

  /** A call means the same instance whether it is made by a component with the name of what lies below it, or by that
      one: without a name it means the component itself. */
  lemma LocatedBelow(upper: Component, lower: Component, top: Component, path: string, inst: string)
    requires path != "" && lower != top && lower.fullName != ""
    requires lower.fullName == if upper == top || upper.fullName == "" then path else upper.fullName + "." + path
    ensures Located(lower, top, "") == lower.fullName == Located(upper, top, path)
    ensures inst != "" ==> Located(lower, top, inst) == Located(upper, top, path + "." + inst)
  {
    assert upper.fullName + "." + (path + "." + inst) == (upper.fullName + "." + path) + "." + inst;
  }

  /** Read as globs, the instance and, once wildcards are in use, the field decide whether a setting covers a query. */
  lemma CoversByGlob<V>(s: Setting<V>, q: Query)
    requires Faithful(q.engine, s.scope) && (!q.plain ==> Faithful(q.engine, s.field))
    ensures s.Covers(q) <==>
              && s.typeHandle == q.typeHandle && s.field != "" && GlobMatches(s.scope, q.inst)
              && if q.plain then s.field == q.name else GlobMatches(s.field, q.name)
  {
    hide Accepts, GlobToRe, Modelled, GlobMatches, ShortEnough;
    TranslationSound(q.engine, s.scope, q.inst);
    if !q.plain {
      TranslationSound(q.engine, s.field, q.name);
    }
  }

  /** If any setting covers the query, one wins. */
  lemma {:induction false} WinnerExists<V>(history: seq<Setting<V>>, q: Query, i: nat)
    requires i < |history| && history[i].Covers(q)
    ensures exists w: nat :: Wins(history, w, q)
    decreases |history|
  {
    hide Accepts, GlobToRe, PrecedenceOf, Before;
    var n := |history| - 1;
    var before := history[..n];
    if forall j :: 0 <= j < n ==> !before[j].Covers(q) {
      assert Wins(history, n, q);
    } else {
      var j :| 0 <= j < n && before[j].Covers(q);
      WinnerExists(before, q, j);
      var w: nat :| Wins(before, w, q);
      var best := if history[n].Covers(q) && Preferred(history, n, w) then n else w;
      PreferredTotal(history, n, w);
      forall k | 0 <= k < |history| && history[k].Covers(q)
        ensures Preferred(history, best, k)
      {
        if k < n {
          assert before[k] == history[k] && Preferred(before, w, k);
          if best == n {
            PreferredTransitive(history, n, w, k);
          }
        }
      }
      assert Wins(history, best, q);
    }
  }

  /** And no other. */
  lemma WinnerUnique<V>(history: seq<Setting<V>>, a: nat, b: nat, q: Query)
    requires Wins(history, a, q) && Wins(history, b, q)
    ensures a == b
  {
    hide Preferred;
    PreferredTotal(history, a, b);
  }

  // ----- the database

  class ConfigDb<V> {
    const top: Component
    const pool: ResourcePool<V>
    var rsc: map<(TypeHandle, Component), map<string, Resource<V>>>
    ghost var history: seq<Setting<V>>
    ghost var made: seq<Resource<V>>

    /** Each setting made one resource, filed in front; nothing is ever kept for reuse. */
    ghost predicate Valid()
      reads this, pool, made
    {
      && pool.Valid()
      && Recorded(made, history)
      && pool.State() == Run(Inserted(made))
      && pool.hasWildcardNames == !Plain(history)
      && forall k :: k in rsc ==> rsc[k] == map[]
    }

    constructor (top: Component, pool: ResourcePool<V>)
      requires pool.Valid() && pool.State() == Tables(map[], map[]) && !pool.hasWildcardNames
      ensures Valid() && history == [] && this.top == top && this.pool == pool
    {
      this.top, this.pool, rsc, history, made := top, pool, map[], [], [];
    }

    /** Looks for a resource to reuse; since only empty maps are ever stored there is none. */
    method GetResourceMatch(h: TypeHandle, cntxt: Component, field: string, inst: string) returns (r: Resource?<V>)
      ensures r == if (h, cntxt) in rsc && inst + field in rsc[(h, cntxt)] then rsc[(h, cntxt)][inst + field] else null
      ensures Valid() ==> r == null
    {
      if (h, cntxt) !in rsc {
        return null;
      }
      var lookup := inst + field;
      var matches := rsc[(h, cntxt)];
      if lookup !in matches {
        return null;
      }
      return matches[lookup];
    }

    method Set(h: TypeHandle, cntxt: Option<Component>, inst: string, field: string, value: V, phase: Option<string>)
      requires Valid()
      modifies this, pool
      ensures Valid()
      ensures var c := if cntxt.None? then top else cntxt.value;
              history == old(history) + [Setting(h, Located(c, top, inst), field, phase == Some("build"), Depth(c), value)]
    {
      hide Valid;
      var c := if cntxt.None? then top else cntxt.value;
      var loc := inst;
      if inst == "" {
        loc := c.fullName;
      } else if c.fullName != "" && c != top {
        loc := c.fullName + "." + inst;
      }
      var r := Obtain(h, c, field, loc, value, phase);
      File(r, Setting(h, loc, field, phase == Some("build"), Depth(c), value));
    }

    /** The resource a setting writes; the lookup never finds one, so it is always new. */
    method Obtain(h: TypeHandle, c: Component, field: string, loc: string, value: V, phase: Option<string>)
      returns (r: Resource<V>)
      requires Valid()
      modifies `rsc
      ensures Valid() && fresh(r) && r.isRegexName == HasWildcard(field)
      ensures Records(r, Setting(h, loc, field, phase == Some("build"), Depth(c), value))
      ensures r.precedence == if phase == Some("build") then (1000 - Depth(c)) % 0x1_0000_0000 else 1000
    {
      hide Run, Step, GlobToRe, HasWildcard, Inserted, Plain;
      var found := GetResourceMatch(h, c, field, loc);
      if found == null {
        // The map is stored before the new resource is entered into the local copy.
        var matches: map<string, Resource<V>> := map[];
        rsc := rsc[(h, c) := matches];
        r := new Resource(field, loc, h, value);
        matches := matches[loc + field := r];
      } else {
        assert false;
      }
      if phase.Some? && phase.value == "build" {
        r.precedence := (DEFAULT_PRECEDENCE - Depth(c)) % 0x1_0000_0000;
      } else {
        r.precedence := DEFAULT_PRECEDENCE;
      }
      r.Write(value);
    }

    /** Enters a new resource into the pool, in front by name and by type. */
    method File(r: Resource<V>, ghost s: Setting<V>)
      requires Valid() && Records(r, s) && r.isRegexName == HasWildcard(r.name)
      modifies this`history, this`made, pool
      ensures Valid() && history == old(history) + [s]
    {
      hide Run, Step, GlobToRe, HasWildcard, PrecedenceOf, Inserted;
      pool.Set(r, 3);
      InsertedLast(made, r);
      history, made := history + [s], made + [r];
    }

    /** The value of the winning setting; nothing just when no setting covers the query. */
    method Get(h: TypeHandle, cntxt: Option<Component>, inst: string, field: string) returns (value: Option<V>)
      requires Valid()
      ensures var c := if cntxt.None? then top else cntxt.value;
              var q := Query(pool.engine, Plain(history), h, Located(c, top, inst), field);
              match value
              case None => forall s :: s in history ==> !s.Covers(q)
              case Some(v) => exists w: nat :: Wins(history, w, q) && history[w].value == v
    {
      var c := if cntxt.None? then top else cntxt.value;
      var loc := inst;
      if inst == "" {
        loc := c.fullName;
      } else if c.fullName != "" && c != top {
        loc := c.fullName + "." + inst;
      }
      hide Plain, Visible, Scan, InOrder, Select, FirstGreatest, Wins, Run, Inserted, Recorded, Accepts, GlobToRe;
      var rq, order := pool.LookupRegexNames(loc, field, Some(h));
      var r := GetHighestPrecedenceOf(rq, h);
      ghost var q := Query(pool.engine, Plain(history), h, loc, field);
      ghost var w := Answered(made, history, rq, order, q, r);
      if r == null {
        return None;
      }
      var v := r.Read();
      return Some(v);
    }
  }

  ghost predicate Records<V>(r: Resource<V>, s: Setting<V>)
    reads r
  {
    && r.name == s.field && r.scope == GlobToRe(s.scope) && r.typeHandle == s.typeHandle
    && r.precedence == s.Precedence() && r.val == s.value
  }

  ghost predicate Plain<V>(history: seq<Setting<V>>) {
    forall s :: s in history ==> !HasWildcard(s.field)
  }

  ghost function Inserted<V>(made: seq<Resource<V>>): (ops: seq<Op<V>>)
    ensures |ops| == |made| && forall i :: 0 <= i < |ops| ==> ops[i] == Insert(made[i], true, true)
  {
    seq(|made|, i requires 0 <= i < |made| => Insert(made[i], true, true))
  }

  lemma InsertedLast<V>(made: seq<Resource<V>>, r: Resource<V>)
    ensures Inserted(made + [r]) == Inserted(made) + [Insert(r, true, true)]
    ensures Run(Inserted(made + [r])) == Step(Run(Inserted(made)), Insert(r, true, true))
  {
    hide Step;
    assert Inserted(made + [r])[..|made|] == Inserted(made);
  }

  // ----- what a lookup finds

  ghost function Named<V>(name: string): Resource<V> -> bool {
    (r: Resource<V>) => r.name == name
  }

  /** The queue of a name lists the resources of that name, newest first. */
  lemma {:induction false} NewestFirst<V>(made: seq<Resource<V>>, name: string)
    ensures Queue(Run(Inserted(made)).rtab, name) == if name == "" then [] else Select(Reverse(made), Named(name))
  {
    if made == [] {
      assert Reverse(made) == [];
    } else {
      hide Step, Run, Queue, Inserted, Select, Reverse;
      var n := |made| - 1;
      NewestFirst(made[..n], name);
      assert made == made[..n] + [made[n]];
      InsertedLast(made[..n], made[n]);
      SelectReverseLast(made[..n], made[n], Named(name));
      NewestStep(Run(Inserted(made[..n])), made[n], name);
    }
  }

  lemma NewestStep<V>(t: Tables<V>, r: Resource<V>, name: string)
    ensures Queue(Step(t, Insert(r, true, true)).rtab, name)
         == if name != "" && r.name == name then [r] + Queue(t.rtab, name) else Queue(t.rtab, name)
  {
  }

  /** What the pool hands to the selector: the resources of the covering settings. */
  ghost predicate Handed<V>(t: Tables<V>, rq: seq<Resource<V>>, order: seq<string>, q: Query) {
    if q.plain then rq == Visible(q.engine, Queue(t.rtab, q.name), q.inst, Some(q.typeHandle))
    else InOrder(order, t.rtab.Keys) && rq == Scan(q.engine, t.rtab, order, q.inst, q.name, Some(q.typeHandle))
  }

  /** The resources of a name, among those handed over. */
  ghost function Wanted<V>(q: Query, name: string): Resource<V> -> bool
  {
    Both<Resource<V>>(Named(name), Seen(q.engine, q.inst, Some(q.typeHandle)))
  }

  /** What is visible under a name: the resources wanted, newest first. */
  lemma WantedVisible<V>(made: seq<Resource<V>>, q: Query, name: string)
    ensures Visible(q.engine, Queue(Run(Inserted(made)).rtab, name), q.inst, Some(q.typeHandle))
         == if name == "" then [] else Select(Reverse(made), Wanted(q, name))
  {
    hide Select, Named, Seen, Both, Run;
    NewestFirst(made, name);
    if name != "" {
      VisibleSelects(q.engine, Select(Reverse(made), Named(name)), q.inst, Some(q.typeHandle));
      SelectBoth(Reverse(made), Named(name), Seen(q.engine, q.inst, Some(q.typeHandle)));
    }
  }

  lemma PlainMember<V>(made: seq<Resource<V>>, rq: seq<Resource<V>>, order: seq<string>, q: Query, r: Resource<V>)
    requires q.plain && Handed(Run(Inserted(made)), rq, order, q)
    ensures r in rq <==> r in made && q.name != "" && r.name == q.name && Sees(q.engine, r, q.inst, Some(q.typeHandle))
  {
    hide Run, Select, Sees, Visible;
    WantedVisible(made, q, q.name);
    SelectCount(Reverse(made), Wanted(q, q.name), r);
    InReverse(made, r);
  }

  lemma ScanMember<V>(made: seq<Resource<V>>, rq: seq<Resource<V>>, order: seq<string>, q: Query, r: Resource<V>)
    requires !q.plain && Handed(Run(Inserted(made)), rq, order, q)
    ensures r in rq <==> r in made && r.name != "" && Accepts(q.engine, GlobToRe(r.name), q.name)
                         && Sees(q.engine, r, q.inst, Some(q.typeHandle))
  {
    hide Run, Select, Sees, Scan, Accepts, GlobToRe;
    var t := Run(Inserted(made));
    RunKeyed(Inserted(made));
    ScanHolds(q.engine, t.rtab, order, q.inst, q.name, Some(q.typeHandle), r);
    if r.name in t.rtab {
      VisibleSelects(q.engine, t.rtab[r.name], q.inst, Some(q.typeHandle));
      SelectCount(t.rtab[r.name], Seen(q.engine, q.inst, Some(q.typeHandle)), r);
    }
    forall k | k in t.rtab && r in Visible(q.engine, t.rtab[k], q.inst, Some(q.typeHandle))
      ensures r.name == k
    {
      VisibleWithin(q.engine, t.rtab[k], q.inst, Some(q.typeHandle), r);
    }
    NewestFirst(made, r.name);
    SelectCount(Reverse(made), Named(r.name), r);
    InReverse(made, r);
  }

  /** The resources handed over are those of the covering settings. */
  lemma CoveringHanded<V>(made: seq<Resource<V>>, history: seq<Setting<V>>, rq: seq<Resource<V>>, order: seq<string>,
                          q: Query, r: Resource<V>)
    requires Recorded(made, history) && Handed(Run(Inserted(made)), rq, order, q)
    ensures r in rq ==> r in made && r.typeHandle == q.typeHandle
    ensures forall i :: 0 <= i < |made| && made[i] == r ==> (r in rq <==> history[i].Covers(q))
  {
    hide Run, Handed, Accepts, GlobToRe;
    if q.plain {
      PlainMember(made, rq, order, q, r);
    } else {
      ScanMember(made, rq, order, q, r);
    }
  }

  ghost predicate Recorded<V>(made: seq<Resource<V>>, history: seq<Setting<V>>)
    reads made
  {
    |made| == |history| && forall i :: 0 <= i < |made| ==> Records(made[i], history[i])
  }

  lemma HandedOfType<V>(made: seq<Resource<V>>, history: seq<Setting<V>>, rq: seq<Resource<V>>, order: seq<string>,
                        q: Query)
    requires Recorded(made, history) && Handed(Run(Inserted(made)), rq, order, q)
    ensures Select(rq, HasType({q.typeHandle})) == rq
  {
    hide Run, Inserted, Handed, Select, Recorded;
    forall r | r in rq
      ensures r.typeHandle == q.typeHandle
    {
      CoveringHanded(made, history, rq, order, q, r);
    }
    SelectAll(rq, HasType({q.typeHandle}));
  }

  /** Nothing handed over: no setting covers the query. */
  lemma NothingHanded<V>(made: seq<Resource<V>>, history: seq<Setting<V>>, order: seq<string>, q: Query)
    requires Recorded(made, history) && Handed(Run(Inserted(made)), [], order, q)
    ensures forall s :: s in history ==> !s.Covers(q)
  {
    hide Run, Inserted, Handed;
    forall i | 0 <= i < |history|
      ensures !history[i].Covers(q)
    {
      CoveringHanded(made, history, [], order, q, made[i]);
    }
  }

  // ----- which resource is first among the greatest

  lemma FirstGreatestParts<R>(a: seq<R>, b: seq<R>, key: map<R, int>, r: R)
    requires FirstGreatest(a + b, key, r)
    ensures KeyedBy(a, key) && KeyedBy(b, key) && r in key
    ensures || (FirstGreatest(a, key, r) && forall x :: x in b ==> key[x] <= key[r])
            || (FirstGreatest(b, key, r) && forall x :: x in a ==> key[x] < key[r])
  {
    var i: nat :| FirstGreatestAt(a + b, key, i) && (a + b)[i] == r;
    assert forall j :: 0 <= j < |a| ==> (a + b)[j] == a[j];
    assert forall j :: 0 <= j < |b| ==> (a + b)[|a| + j] == b[j];
    assert KeyedBy(a, key) && KeyedBy(b, key);
    if i < |a| {
      assert FirstGreatestAt(a, key, i);
    } else {
      assert FirstGreatestAt(b, key, i - |a|);
    }
  }

  /** In the scan it is the first of the greatest under some accepted name, and whatever earlier names contribute has
      a lower precedence. */
  lemma {:induction false} ScanGreatest<V>(engine: Engine, rtab: map<string, seq<Resource<V>>>, order: seq<string>,
                                           inst: string, name: string, h: TypeHandle, key: map<Resource<V>, int>,
                                           r: Resource<V>) returns (n: nat)
    requires forall k :: k in order ==> k in rtab
    requires FirstGreatest(Scan(engine, rtab, order, inst, name, Some(h)), key, r)
    ensures n < |order| && FirstGreatest(Visible(engine, rtab[order[n]], inst, Some(h)), key, r) && r in key
    ensures forall j, x ::
              (0 <= j < n && Accepts(engine, GlobToRe(order[j]), name) && x in Visible(engine, rtab[order[j]], inst, Some(h))
               ==> x in key && key[x] < key[r])
  {
    hide Accepts, GlobToRe, Visible, FirstGreatest;
    FirstGreatestSome(Scan(engine, rtab, order, inst, name, Some(h)), key, r);
    var first := if Accepts(engine, GlobToRe(order[0]), name) then Visible(engine, rtab[order[0]], inst, Some(h)) else [];
    FirstGreatestParts(first, Scan(engine, rtab, order[1..], inst, name, Some(h)), key, r);
    if FirstGreatest(first, key, r) {
      FirstGreatestSome(first, key, r);
      n := 0;
    } else {
      n := ScanGreatest(engine, rtab, order[1..], inst, name, h, key, r);
      assert order == [order[0]] + order[1..];
      n := n + 1;
    }
  }

  lemma FirstGreatestSome<R>(q: seq<R>, key: map<R, int>, r: R)
    requires FirstGreatest(q, key, r)
    ensures q != [] && r in q && r in key
  {
  }

  /** The chosen resource bears a name under which it is the first of the greatest, and no resource handed over under
      an earlier name has its precedence. */
  ghost predicate FirstUnderName<V>(made: seq<Resource<V>>, rq: seq<Resource<V>>, q: Query, r: Resource<V>)
    reads rq
  {
    && r.name != "" && r in rq
    && FirstGreatest(Select(Reverse(made), Wanted(q, r.name)), Precedences(rq), r)
    && forall x :: x in rq ==> x.precedence <= r.precedence && (Before(x.name, r.name) ==> x.precedence < r.precedence)
  }

  lemma PlainFirst<V>(made: seq<Resource<V>>, rq: seq<Resource<V>>, order: seq<string>, q: Query, r: Resource<V>)
    requires q.plain && Handed(Run(Inserted(made)), rq, order, q) && FirstGreatest(rq, Precedences(rq), r)
    ensures FirstUnderName(made, rq, q, r)
  {
    hide Run, Select, Visible, FirstGreatest, Before;
    GreatestMeans(rq, Precedences(rq), r);
    WantedVisible(made, q, q.name);
    PlainMember(made, rq, order, q, r);
    forall x | x in rq
      ensures !Before(x.name, r.name) && x.precedence <= r.precedence
    {
      PlainMember(made, rq, order, q, x);
      BeforeIrreflexive(r.name);
      assert Precedences(rq)[x] <= Precedences(rq)[r];
    }
  }

  lemma ScanFirst<V>(made: seq<Resource<V>>, rq: seq<Resource<V>>, order: seq<string>, q: Query, r: Resource<V>)
    requires !q.plain && Handed(Run(Inserted(made)), rq, order, q) && FirstGreatest(rq, Precedences(rq), r)
    ensures FirstUnderName(made, rq, q, r)
  {
    hide Run, Select, Visible, FirstGreatest, Before, Scan, Accepts, GlobToRe;
    var rtab := Run(Inserted(made)).rtab;
    var key: map<Resource<V>, int> := Precedences(rq);
    GreatestMeans<Resource<V>>(rq, key, r);
    var n := ScanGreatest(q.engine, rtab, order, q.inst, q.name, q.typeHandle, key, r);
    var k := order[n];
    assert k in order;
    FirstGreatestSome(Visible(q.engine, rtab[k], q.inst, Some(q.typeHandle)), key, r);
    NamedVisible(made, q, k, r);
    WantedVisible(made, q, k);
    forall x | x in rq
      ensures x.precedence <= r.precedence && (Before(x.name, k) ==> x.precedence < r.precedence)
    {
      assert key[x] <= key[r];
      if Before(x.name, k) {
        EarlierName(made, rq, order, q, x, n);
        assert key[x] < key[r];
      }
    }
  }

  /** What is visible under a name bears it, and the name is not empty. */
  lemma NamedVisible<V>(made: seq<Resource<V>>, q: Query, k: string, r: Resource<V>)
    requires r in Visible(q.engine, Queue(Run(Inserted(made)).rtab, k), q.inst, Some(q.typeHandle))
    ensures r.name == k && k != ""
  {
    hide Run, Select, Visible;
    WantedVisible(made, q, k);
    SelectCount(Reverse(made), Wanted(q, k), r);
  }

  /** A resource handed over by the scan under a name before the `n`th lies at one of the earlier positions. */
  lemma EarlierName<V>(made: seq<Resource<V>>, rq: seq<Resource<V>>, order: seq<string>, q: Query, x: Resource<V>, n: nat)
    requires !q.plain && Handed(Run(Inserted(made)), rq, order, q) && x in rq && n < |order| && Before(x.name, order[n])
    ensures exists j :: 0 <= j < n && order[j] == x.name && Accepts(q.engine, GlobToRe(order[j]), q.name) &&
                        x in Visible(q.engine, Run(Inserted(made)).rtab[order[j]], q.inst, Some(q.typeHandle))
  {
    hide Run, Visible, Before, Scan, Accepts, GlobToRe;
    var rtab := Run(Inserted(made)).rtab;
    ScanHolds(q.engine, rtab, order, q.inst, q.name, Some(q.typeHandle), x);
    var k :| k in order && Accepts(q.engine, GlobToRe(k), q.name) && x in Visible(q.engine, rtab[k], q.inst, Some(q.typeHandle));
    NamedVisible(made, q, k, x);
    var j :| 0 <= j < |order| && order[j] == k;
    if j >= n {
      BeforeIrreflexive(k);
      if j > n {
        BeforeTransitive(k, order[n], k);
      }
    }
  }

  /** So the resource chosen was made by the winning setting. */
  lemma WinnerHanded<V>(made: seq<Resource<V>>, history: seq<Setting<V>>, rq: seq<Resource<V>>, order: seq<string>,
                        q: Query, r: Resource<V>) returns (w: nat)
    requires Recorded(made, history) && Handed(Run(Inserted(made)), rq, order, q)
    requires FirstGreatest(rq, Precedences(rq), r)
    ensures w < |made| && made[w] == r && Wins(history, w, q)
  {
    hide Run, Inserted, Handed, FirstGreatest, Accepts, GlobToRe, Select, Before;
    if q.plain {
      PlainFirst(made, rq, order, q, r);
    } else {
      ScanFirst(made, rq, order, q, r);
    }
    var i := SelectedGreatest(Reverse(made), Wanted(q, r.name), Precedences(rq), r);
    w := |made| - 1 - i;
    CoveringHanded(made, history, rq, order, q, r);
    forall j | 0 <= j < |history| && history[j].Covers(q)
      ensures Preferred(history, w, j)
    {
      CoveringHanded(made, history, rq, order, q, made[j]);
      BeforeTotal(history[j].field, history[w].field);
      assert Reverse(made)[|made| - 1 - j] == made[j];
    }
  }

  /** What the typed selector returns, said of the settings. */
  lemma Answered<V>(made: seq<Resource<V>>, history: seq<Setting<V>>, rq: seq<Resource<V>>, order: seq<string>,
                    q: Query, r: Resource?<V>) returns (w: nat)
    requires Recorded(made, history) && Handed(Run(Inserted(made)), rq, order, q)
    requires var typed := Select(rq, HasType({q.typeHandle}));
             if typed == [] then r == null else r != null && FirstGreatest<Resource<V>>(typed, Precedences(rq), r)
    ensures r == null ==> forall s :: s in history ==> !s.Covers(q)
    ensures r != null ==> Wins(history, w, q) && history[w].value == r.val
  {
    hide Run, Inserted, Handed, FirstGreatest, Accepts, GlobToRe, Select, Wins;
    w := 0;
    HandedOfType(made, history, rq, order, q);
    if r == null {
      NothingHanded(made, history, order, q);
    } else {
      w := WinnerHanded(made, history, rq, order, q, r);
    }
  }

  lemma WinnerIsGreatest<V>(history: seq<Setting<V>>, w: nat, q: Query)
    requires Wins(history, w, q)
    ensures Greatest(history, w, q)
  {
    forall j | 0 <= j < |history| && history[j].Covers(q)
      ensures history[j].Precedence() <= history[w].Precedence()
    {
      assert Preferred(history, w, j);
    }
  }
}
