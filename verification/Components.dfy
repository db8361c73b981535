/** Components, the cursor over their children, and the walks that phases and searches make through it. */
module Components {
  import opened Options
  import opened OrderedKeys
  import opened ComponentTree
  import opened Sequences
  import opened Regex
  import opened Glob
  import opened GlobMatching

  datatype PhaseState = Started | Executing | ReadyToEnd | Ended

  datatype Phase = Phase(name: string, domain: nat)

  /** The domain whose phases concern every component. */
  const COMMON_DOMAIN: nat := 0

  /** What a walk through the components is for: phase calls, parents first or last, or a search by full name. */
  datatype Task =
    | Down(phase: Phase, state: PhaseState)
    | Up(phase: Phase, state: PhaseState)
    | Find(engine: Engine, pattern: string)

  /** Collects the components a walk has called or found, in order. */
  class ComponentList {
    var items: seq<Component>
  }

  class Component {
    const name: string
    const path: seq<string>
    const fullName: string
    const domain: nat
    var children: map<string, Component>
    var childrenByHandle: set<Component>
    var childrenCnt: nat
    var pending: seq<Component>
    var buildDone: bool
    var currentPhase: Option<Phase>
    var phasingActive: nat

    method GetChild(name: string) returns (c: Component?)
      ensures c == if name in children then children[name] else null
    {
      if name in children {
        return children[name];
      }
      return null;
    }

    /** The cursor names the child at its position in map order; the empty name counts as none. */
    ghost predicate AtCursor(found: bool, name: string)
      reads `children, `childrenCnt
    {
      var order := Ordered(children.Keys);
      && found == (childrenCnt < |order| && order[childrenCnt] != "")
      && (found ==> name == order[childrenCnt])
    }

    method GetFirstChild() returns (found: bool, name: string)
      modifies `childrenCnt
      ensures childrenCnt == 0 && AtCursor(found, name)
    {
      name := "";
      childrenCnt := 0;
      ghost var expected := Ordered(children.Keys);
      OrderLength(expected, children.Keys);
      if |children| == 0 {
        return false, name;
      }
      var order := KeysInOrder(children.Keys);
      OrderUnique(order, expected, children.Keys);
      name := order[0];
      return name != "", name;
    }

    method GetNextChild() returns (found: bool, name: string)
      modifies `childrenCnt
      ensures childrenCnt == old(childrenCnt) + 1 && AtCursor(found, name)
    {
      name := "";
      childrenCnt := childrenCnt + 1;
      ghost var expected := Ordered(children.Keys);
      OrderLength(expected, children.Keys);
      if childrenCnt >= |children| {
        return false, name;
      }
      var order := KeysInOrder(children.Keys);
      OrderUnique(order, expected, children.Keys);
      name := order[childrenCnt];
      return name != "", name;
    }

    /** Refuses a name in use and a component it already has. Given a name, it files the child under none. */
    method AddChild(child: Component, name: string) returns (added: bool)
      modifies `children, `childrenByHandle
      ensures var key := if name == "" then child.name else "";
              added == ((key in old(children) ==> old(children)[key] == child) && child !in old(childrenByHandle))
              && children == (if added then old(children)[key := child] else old(children))
              && childrenByHandle == old(childrenByHandle) + if added then {child} else {}
    {
      var chname := "";
      if name == "" {
        chname := child.name;
      }
      if chname in children && children[chname] != child {
        return false;
      }
      if child in childrenByHandle {
        return false;
      }
      children := children[chname := child];
      childrenByHandle := childrenByHandle + {child};
      return true;
    }

    /** Every component known by handle has its name in use. */
    ghost predicate HandlesAgree()
      reads `children, `childrenByHandle
    {
      forall h :: h in childrenByHandle ==> h.name in children
    }

    predicate Concerns(phase: Phase)
    {
      phase.domain == COMMON_DOMAIN || phase.domain == domain
    }

    /** Whether a top-down traversal in this state calls the component: the build phase runs only once. A bottom-up
        traversal calls every component its phase concerns. */
    predicate Runs(phase: Phase, state: PhaseState)
      reads `buildDone
    {
      Concerns(phase) && !(state.Executing? && phase.name == "build" && buildDone)
    }

    predicate Matches(engine: Engine, pattern: string)
    {
      Accepts(engine, GlobToRe(pattern), fullName) && name != ""
    }

    /** Whether the walk will list the component. */
    predicate Wanted(task: Task)
      reads `buildDone
    {
      match task
      case Down(phase, state) => Runs(phase, state)
      case Up(phase, _) => Concerns(phase)
      case Find(engine, pattern) => Matches(engine, pattern)
    }

    /** The component's own phase code: it may create children beneath the component. */
    method Execute(phase: Phase, list: ComponentList)
      requires HandlesAgree()
      modifies `children, `childrenByHandle, `pending, `buildDone, list
      ensures HandlesAgree() && pending == [] && children == AddAll(old(children), old(pending))
      ensures list.items == old(list.items) + [this] && buildDone == (old(buildDone) || phase.name == "build")
    {
      list.items := list.items + [this];
      while pending != []
        invariant HandlesAgree() && AddAll(children, pending) == AddAll(old(children), old(pending))
        invariant list.items == old(list.items) + [this] && buildDone == old(buildDone)
        decreases |pending|
      {
        ghost var before := children;
        var added := AddChild(pending[0], "");
        assert children == if pending[0].name in before then before else before[pending[0].name := pending[0]];
        pending := pending[1..];
      }
      if phase.name == "build" {
        buildDone := true;
      }
    }

    /** What a top-down traversal does at one component. */
    method VisitDown(phase: Phase, state: PhaseState, list: ComponentList)
      requires HandlesAgree()
      modifies `children, `childrenByHandle, `pending, `buildDone, `currentPhase, `phasingActive, list
      ensures HandlesAgree() && phasingActive == old(phasingActive)
      ensures var mine := phase.domain == COMMON_DOMAIN || phase.domain == domain;
              var runs := mine && state.Executing? && !(phase.name == "build" && old(buildDone));
              && list.items == old(list.items) + (if runs || (mine && !state.Executing?) then [this] else [])
              && children == (if runs then AddAll(old(children), old(pending)) else old(children))
              && pending == (if runs then [] else old(pending))
              && buildDone == (old(buildDone) || (runs && phase.name == "build"))
              && currentPhase == (if mine && state.Started? then Some(phase)
                                  else if mine && state.Ended? then None else old(currentPhase))
    {
      if phase.domain == COMMON_DOMAIN || phase.domain == domain {
        match state
        case Started =>
          currentPhase := Some(phase);
          list.items := list.items + [this];
        case Executing =>
          if !(phase.name == "build" && buildDone) {
            phasingActive := phasingActive + 1;
            Execute(phase, list);
            phasingActive := phasingActive - 1;
          }
        case ReadyToEnd =>
          list.items := list.items + [this];
        case Ended =>
          list.items := list.items + [this];
          currentPhase := None;
      }
    }

    /** What a bottom-up traversal does at one component: it neither asks whether build is done nor counts. */
    method VisitUp(phase: Phase, state: PhaseState, list: ComponentList)
      requires HandlesAgree()
      modifies `children, `childrenByHandle, `pending, `buildDone, `currentPhase, list
      ensures HandlesAgree()
      ensures var mine := phase.domain == COMMON_DOMAIN || phase.domain == domain;
              var runs := mine && state.Executing?;
              && list.items == old(list.items) + (if mine then [this] else [])
              && children == (if runs then AddAll(old(children), old(pending)) else old(children))
              && pending == (if runs then [] else old(pending))
              && buildDone == (old(buildDone) || (runs && phase.name == "build"))
              && currentPhase == (if mine && state.Started? then Some(phase)
                                  else if mine && state.Ended? then None else old(currentPhase))
    {
      if phase.domain == COMMON_DOMAIN || phase.domain == domain {
        match state
        case Started =>
          currentPhase := Some(phase);
          list.items := list.items + [this];
        case Executing =>
          Execute(phase, list);
        case ReadyToEnd =>
          list.items := list.items + [this];
        case Ended =>
          list.items := list.items + [this];
          currentPhase := None;
      }
    }

    /** The children the component will have once it has been visited, if it is called. */
    ghost function Eventual(wanted: bool, task: Task): map<string, Component>
      reads this
    {
      if wanted && task.Down? && task.state.Executing? then AddAll(children, pending) else children
    }

    ghost predicate Finished(phase: Phase, state: PhaseState)
      reads `pending, `currentPhase
    {
      && (state.Executing? ==> pending == [])
      && (state.Started? || state.Ended? ==> currentPhase == Marked(currentPhase, phase, state))
    }
  }

  /** The phase a component is marked with after a call: set when the phase starts, cleared when it has ended. */
  function Marked(before: Option<Phase>, phase: Phase, state: PhaseState): Option<Phase> {
    match state
    case Started => Some(phase)
    case Ended => None
    case _ => before
  }

  /** Registers new children one after the other; one whose name is in use is refused. */
  ghost function AddAll(children: map<string, Component>, pending: seq<Component>): map<string, Component>
    decreases |pending|
  {
    if pending == [] then children
    else
      var c := pending[0];
      AddAll(if c.name in children then children else children[c.name := c], pending[1..])
  }

  /** Children already registered stay; of several new ones with one name the first is taken, if the name is free. */
  lemma {:induction false} FirstNamedStays(children: map<string, Component>, pending: seq<Component>, k: string)
    ensures k in AddAll(children, pending) <==> k in children || exists i :: 0 <= i < |pending| && pending[i].name == k
    ensures k in children ==> AddAll(children, pending)[k] == children[k]
    ensures k !in children && k in AddAll(children, pending) ==>
              exists i :: 0 <= i < |pending| && pending[i].name == k && AddAll(children, pending)[k] == pending[i]
                          && forall j :: 0 <= j < i ==> pending[j].name != k
    decreases |pending|
  {
    if pending != [] {
      var c := pending[0];
      var next := if c.name in children then children else children[c.name := c];
      FirstNamedStays(next, pending[1..], k);
      if k !in next && k in AddAll(next, pending[1..]) {
        var i :| 0 <= i < |pending[1..]| && pending[1..][i].name == k && AddAll(next, pending[1..])[k] == pending[1..][i]
                 && forall j :: 0 <= j < i ==> pending[1..][j].name != k;
        assert pending[i + 1] == pending[1..][i];
        assert forall j :: 1 <= j < i + 1 ==> pending[j] == pending[1..][j - 1];
      } else if k !in children && k == c.name {
        assert pending[0].name == k;
      }
    }
  }

  // ----- traversals

  ghost function PathOf(): Component -> seq<string> {
    (c: Component) => c.path
  }

  /** A walk foretold: the tree it will go through and the components it will list. For a traversal parents first
      that is the tree with all children created on the way, otherwise the tree as it is. */
  datatype Plan = Plan(g: Tree<Component>, height: nat, listed: set<Component>, task: Task)
  {
    ghost predicate Sound() {
      IsTree(g, PathOf(), height)
    }

    ghost function Order(c: Component): seq<Component>
      requires Sound() && c in g
    {
      Walk(g, PathOf(), height, c, task.Down?)
    }

    ghost function OrderOf(p: Component, names: seq<string>): seq<Component>
      requires Sound() && p in g && forall k :: k in names ==> k in g[p]
    {
      Forest(g, PathOf(), height, p, names, task.Down?)
    }

    ghost function Below(c: Component): set<Component>
      requires Sound() && c in g
    {
      set x | x in Order(c)
    }

    ghost function BelowNames(p: Component, names: seq<string>): set<Component>
      requires Sound() && p in g && forall k :: k in names ==> k in g[p]
    {
      set x | x in OrderOf(p, names)
    }

    /** Those of the components that are to be listed. */
    ghost function Calls(cs: seq<Component>): seq<Component> {
      Select(cs, Among(listed))
    }

    /** Not visited yet. */
    ghost predicate Waiting(cs: set<Component>)
      reads cs
    {
      forall c :: c in cs ==>
        c in g && g[c] == c.Eventual(c in listed, task) && (c in listed <==> c.Wanted(task)) && c.HandlesAgree()
    }

    /** A plan for the whole tree below `top`, before the walk. */
    ghost predicate Ready(top: Component)
      reads g.Keys
    {
      Sound() && Rooted(g, PathOf(), top) && Named(g) && listed <= g.Keys && Waiting(g.Keys)
    }

    ghost predicate Done(cs: set<Component>)
      reads cs
    {
      forall c :: c in cs ==>
        && (!task.Up? ==> c in g && c.children == g[c])
        && (!task.Find? && c in listed ==> c.Finished(task.phase, task.state))
    }
  }

  /** What lies below the children already walked, the next one, and the others. */
  lemma Parts(t: Plan, p: Component, names: seq<string>, i: nat)
    requires t.Sound() && p in t.g && names == Reached(t.g[p]) && i < |names|
    ensures names[i] in t.g[p] && t.g[p][names[i]] in t.g && |p.path| < |t.g[p][names[i]].path| <= t.height
    ensures var walk, before, after :=
              t.Order(t.g[p][names[i]]), t.OrderOf(p, names[..i]), t.OrderOf(p, names[i + 1..]);
            && t.OrderOf(p, names[..i + 1]) == before + walk
            && t.OrderOf(p, names[i..]) == walk + after
            && t.OrderOf(p, names) == before + walk + after
  {
    hide Walk, Reached;
    assert names[i] in names;
    ChildDeeper(t.g, PathOf(), t.height, p, names[i]);
    ForestConcat(t.g, PathOf(), t.height, p, names[..i], [names[i]], t.task.Down?);
    ForestConcat(t.g, PathOf(), t.height, p, names[..i], names[i..], t.task.Down?);
    ConcatAssoc(t.OrderOf(p, names[..i]), t.Order(t.g[p][names[i]]), t.OrderOf(p, names[i + 1..]));
    assert names[..i] + [names[i]] == names[..i + 1] && names[..i] + names[i..] == names;
    assert names[i..][0] == names[i] && names[i..][1..] == names[i + 1..] && [names[i]][1..] == [];
  }

  /** The three parts are disjoint, and the parent is in none. */
  lemma PartsApart(t: Plan, p: Component, names: seq<string>, i: nat)
    requires t.Sound() && p in t.g && names == Reached(t.g[p]) && i < |names| && names[i] in t.g[p]
    ensures var walk, before, after :=
              t.Below(t.g[p][names[i]]), t.BelowNames(p, names[..i]), t.BelowNames(p, names[i + 1..]);
            && before !! walk && walk !! after && p !in before && p !in walk && p !in after
            && t.BelowNames(p, names[..i + 1]) == before + walk
            && t.BelowNames(p, names[i..]) == walk + after
            && walk <= t.BelowNames(p, names)
  {
    hide Forest, Walk, Reached;
    Parts(t, p, names, i);
    var walk, before, after := t.Order(t.g[p][names[i]]), t.OrderOf(p, names[..i]), t.OrderOf(p, names[i + 1..]);
    PartsOnce(t.g, PathOf(), t.height, p, before, walk, after, t.task.Down?, p);
    forall x | x in walk
      ensures x !in before && x !in after
    {
      PartsOnce(t.g, PathOf(), t.height, p, before, walk, after, t.task.Down?, x);
    }
  }

  lemma RootApart(t: Plan, p: Component)
    requires t.Sound() && p in t.g
    ensures var names := Reached(t.g[p]);
            && p !in t.BelowNames(p, names) && t.Below(p) == {p} + t.BelowNames(p, names)
            && t.Calls(t.Order(p)) == (if t.task.Down? then t.Calls([p]) + t.Calls(t.OrderOf(p, names))
                                       else t.Calls(t.OrderOf(p, names)) + t.Calls([p]))
            && t.Calls([p]) == (if p in t.listed then [p] else [])
  {
    hide Reached, Select;
    var below := t.OrderOf(p, Reached(t.g[p]));
    assert below == [] + [] + below;
    PartsOnce(t.g, PathOf(), t.height, p, [], [], below, t.task.Down?, p);
    SelectConcat([p], below, Among(t.listed));
    SelectConcat(below, [p], Among(t.listed));
    SelectOne(p, Among(t.listed));
  }

  lemma NoNames(t: Plan, p: Component)
    requires t.Sound() && p in t.g
    ensures t.OrderOf(p, []) == [] && t.Calls([]) == [] && t.BelowNames(p, []) == {}
  {
    hide IsTree;
  }

  lemma CallsGrow(t: Plan, p: Component, names: seq<string>, i: nat, calls: seq<Component>)
    requires t.Sound() && p in t.g && names == Reached(t.g[p]) && i < |names|
    ensures names[i] in t.g[p] && t.g[p][names[i]] in t.g
    ensures (calls + t.Calls(t.OrderOf(p, names[..i]))) + t.Calls(t.Order(t.g[p][names[i]]))
         == calls + t.Calls(t.OrderOf(p, names[..i + 1]))
  {
    hide Reached, IsTree, Walk, Forest, Select;
    Parts(t, p, names, i);
    var child := t.g[p][names[i]];
    SelectConcat(t.OrderOf(p, names[..i]), t.Order(child), Among(t.listed));
    ConcatAssoc(calls, t.Calls(t.OrderOf(p, names[..i])), t.Calls(t.Order(child)));
  }

  /** Parents first, as the build phase does: children that visited components create are walked too. */
  method TraverseDown(comp: Component, phase: Phase, state: PhaseState, list: ComponentList, ghost t: Plan)
    requires t.Sound() && comp in t.g && t.task == Down(phase, state) && t.Waiting(t.Below(comp))
    modifies t.Below(comp), list
    ensures t.Done(t.Below(comp)) && list.items == old(list.items) + t.Calls(t.Order(comp))
    decreases t.height - |comp.path|, 2
  {
    hide Reached, Walk, Forest, IsTree, Select, AddAll;
    RootApart(t, comp);
    assert t.Waiting(t.BelowNames(comp, Reached(t.g[comp])));
    comp.VisitDown(phase, state, list);
    WalkChildren(comp, Down(phase, state), list, t, Reached(t.g[comp]));
    ConcatAssoc(old(list.items), t.Calls([comp]), t.Calls(t.OrderOf(comp, Reached(t.g[comp]))));
  }

  /** Parents last. */
  method TraverseUp(comp: Component, phase: Phase, state: PhaseState, list: ComponentList, ghost t: Plan)
    requires t.Sound() && comp in t.g && t.task == Up(phase, state) && t.Waiting(t.Below(comp))
    modifies t.Below(comp), list
    ensures t.Done(t.Below(comp)) && list.items == old(list.items) + t.Calls(t.Order(comp))
    decreases t.height - |comp.path|, 2
  {
    hide Reached, Walk, Forest, IsTree, Select, AddAll;
    RootApart(t, comp);
    assert t.Waiting(t.BelowNames(comp, Reached(t.g[comp])));
    WalkChildren(comp, Up(phase, state), list, t, Reached(t.g[comp]));
    comp.VisitUp(phase, state, list);
    ConcatAssoc(old(list.items), t.Calls(t.OrderOf(comp, Reached(t.g[comp]))), t.Calls([comp]));
  }

  /** The search lists the matching components, parents last; only cursors move. */
  method FindAllRecurse(comp: Component, engine: Engine, pattern: string, list: ComponentList, ghost t: Plan)
    requires t.Sound() && comp in t.g && t.task == Find(engine, pattern) && t.Waiting(t.Below(comp))
    modifies t.Below(comp), list
    ensures t.Done(t.Below(comp)) && list.items == old(list.items) + t.Calls(t.Order(comp))
    decreases t.height - |comp.path|, 2
  {
    hide Reached, Walk, Forest, IsTree, Select, AddAll, Accepts, GlobToRe;
    RootApart(t, comp);
    assert t.Waiting(t.BelowNames(comp, Reached(t.g[comp])));
    WalkChildren(comp, Find(engine, pattern), list, t, Reached(t.g[comp]));
    if Accepts(engine, GlobToRe(pattern), comp.fullName) && comp.name != "" {
      list.items := list.items + [comp];
    }
    ConcatAssoc(old(list.items), t.Calls(t.OrderOf(comp, Reached(t.g[comp]))), t.Calls([comp]));
  }

  /** The loop of all three: from the first child to the last, the cursor being the component's own. */
  method WalkChildren(comp: Component, task: Task, list: ComponentList, ghost t: Plan, ghost names: seq<string>)
    requires t.Sound() && comp in t.g && t.task == task && comp.children == t.g[comp] && names == Reached(t.g[comp])
    requires t.Waiting(t.BelowNames(comp, names)) && comp !in t.BelowNames(comp, names)
    modifies comp`childrenCnt, t.BelowNames(comp, names), list
    ensures t.Done(t.BelowNames(comp, names)) && list.items == old(list.items) + t.Calls(t.OrderOf(comp, names))
    decreases t.height - |comp.path|, 1
  {
    hide Reached, IsTree, AddAll, Walk, Select, Among, Forest;
    ghost var i := 0;
    var found, name := comp.GetFirstChild();
    CursorReaches(t.g[comp], 0);
    assert names[0..] == names && names[..0] == [] && names[..|names|] == names;
    NoNames(t, comp);
    assert t.Done(t.BelowNames(comp, [])) && t.Waiting(t.BelowNames(comp, names));
    hide Plan.Waiting, Plan.Done, Plan.Calls, Plan.Order, Plan.OrderOf, Plan.BelowNames, Component.AtCursor;
    while found
      invariant i <= |names| && found == (i < |names|) && (found ==> name == names[i])
      invariant comp.children == t.g[comp] && (found ==> comp.childrenCnt == i)
      invariant t.Done(t.BelowNames(comp, names[..i])) && t.Waiting(t.BelowNames(comp, names[i..]))
      invariant list.items == old(list.items) + t.Calls(t.OrderOf(comp, names[..i]))
      decreases |names| - i
    {
      CallsGrow(t, comp, names, i, old(list.items));
      found, name := WalkOne(comp, name, task, list, t, names, i);
      i := i + 1;
    }
  }

  /** One pass through that loop. */
  method WalkOne(comp: Component, name: string, task: Task, list: ComponentList, ghost t: Plan,
                 ghost names: seq<string>, ghost i: nat) returns (found: bool, next: string)
    requires t.Sound() && comp in t.g && t.task == task
    requires comp.children == t.g[comp] && names == Reached(t.g[comp])
    requires i < |names| && name == names[i] && comp.childrenCnt == i
    requires t.Done(t.BelowNames(comp, names[..i])) && t.Waiting(t.BelowNames(comp, names[i..]))
    modifies comp`childrenCnt, t.BelowNames(comp, names), list
    ensures found == (i + 1 < |names|) && (found ==> next == names[i + 1])
    ensures comp.children == t.g[comp] && comp.childrenCnt == i + 1
    ensures t.Done(t.BelowNames(comp, names[..i + 1])) && t.Waiting(t.BelowNames(comp, names[i + 1..]))
    ensures t.g[comp][name] in t.g && list.items == old(list.items) + t.Calls(t.Order(t.g[comp][name]))
    decreases t.height - |comp.path|, 0
  {
    hide Reached, IsTree, AddAll, Walk, Select, Among, Forest;
    Parts(t, comp, names, i);
    PartsApart(t, comp, names, i);
    CursorReaches(t.g[comp], i + 1);
    var child := comp.GetChild(name);
    ghost var before, after := t.BelowNames(comp, names[..i]), t.BelowNames(comp, names[i + 1..]);
    WalkChild(child, task, list, t, before, after);
    found, next := comp.GetNextChild();
  }

  /** One child; what was visited before stays visited and the others go on waiting. */
  method WalkChild(child: Component, task: Task, list: ComponentList, ghost t: Plan, ghost before: set<Component>,
                   ghost after: set<Component>)
    requires t.Sound() && child in t.g && t.task == task
    requires before !! t.Below(child) && after !! t.Below(child)
    requires t.Done(before) && t.Waiting(t.Below(child) + after)
    modifies t.Below(child), list
    ensures t.Done(before + t.Below(child)) && t.Waiting(after)
    ensures list.items == old(list.items) + t.Calls(t.Order(child))
    decreases t.height - |child.path|, 3
  {
    hide IsTree, Walk, Select, AddAll;
    match task
    case Down(phase, state) => TraverseDown(child, phase, state, list, t);
    case Up(phase, state) => TraverseUp(child, phase, state, list, t);
    case Find(engine, pattern) => FindAllRecurse(child, engine, pattern, list, t);
  }

  // ----- what a whole walk comes to

  /** A walk from the root lists each component it is to list exactly once, those created on the way included. */
  lemma ListedOnce(t: Plan, root: Component)
    requires t.Sound() && Rooted(t.g, PathOf(), root) && Named(t.g) && t.listed <= t.g.Keys
    ensures multiset(t.Calls(t.Order(root))) == multiset(t.listed)
  {
    hide IsTree, Named, Walk, Select;
    var order := t.Order(root);
    EveryComponentOnce(t.g, PathOf(), t.height, root, t.task.Down?);
    forall c | c in multiset(t.Calls(order)) + multiset(t.listed)
      ensures multiset(t.Calls(order))[c] == multiset(t.listed)[c]
    {
      SelectCount(order, Among(t.listed), c);
    }
  }

  /** A traversal from the top calls every component of the tree once for a phase of the common domain, and exactly those
      of the domain for any other; but parents first it calls no component for build twice. */
  method Traverse(top: Component, task: Task, list: ComponentList, ghost t: Plan)
    requires !task.Find? && t.task == task && t.Ready(top)
    modifies t.g.Keys, list
    ensures old(list.items) <= list.items
    ensures multiset(list.items[|old(list.items)|..]) == multiset(set c | c in t.g
              && (task.phase.domain == COMMON_DOMAIN || task.phase.domain == c.domain)
              && !(task.Down? && task.state.Executing? && task.phase.name == "build" && old(c.buildDone)))
    ensures task.phase.domain == COMMON_DOMAIN && (task.Up? || !task.state.Executing? || task.phase.name != "build") ==>
              multiset(list.items[|old(list.items)|..]) == multiset(t.g.Keys)
    ensures t.Done(t.g.Keys)
  {
    hide IsTree, Walk, Select, AddAll, Named;
    WholeWalk(t, top);
    assert t.listed == set c | c in t.g && (task.phase.domain == COMMON_DOMAIN || task.phase.domain == c.domain)
                               && !(task.Down? && task.state.Executing? && task.phase.name == "build" && c.buildDone);
    match task
    case Down(phase, state) => TraverseDown(top, phase, state, list, t);
    case Up(phase, state) => TraverseUp(top, phase, state, list, t);
  }

  /** The search finds every component with a name of its own whose full name matches, once, and nothing else. */
  method FindAll(top: Component, engine: Engine, pattern: string, list: ComponentList, ghost t: Plan)
    requires t.task == Find(engine, pattern) && t.Ready(top)
    modifies t.g.Keys, list
    ensures old(list.items) <= list.items
    ensures multiset(list.items[|old(list.items)|..])
         == multiset(set c | c in t.g && c.name != "" && Accepts(engine, GlobToRe(pattern), c.fullName))
    ensures Faithful(engine, pattern) ==>
              multiset(list.items[|old(list.items)|..])
              == multiset(set c | c in t.g && c.name != "" && GlobMatches(pattern, c.fullName))
  {
    hide IsTree, Walk, Select, AddAll, Named, Accepts, GlobToRe, GlobMatches, Faithful;
    WholeWalk(t, top);
    assert t.listed == set c | c in t.g && c.name != "" && Accepts(engine, GlobToRe(pattern), c.fullName);
    FindAllRecurse(top, engine, pattern, list, t);
    if Faithful(engine, pattern) {
      forall c | c in t.g
        ensures Accepts(engine, GlobToRe(pattern), c.fullName) <==> GlobMatches(pattern, c.fullName)
      {
        TranslationSound(engine, pattern, c.fullName);
      }
      assert t.listed == set c | c in t.g && c.name != "" && GlobMatches(pattern, c.fullName);
    }
  }

  /** From the top nothing is left out. */
  lemma WholeWalk(t: Plan, top: Component)
    requires t.Ready(top)
    ensures t.Below(top) == t.g.Keys
    ensures multiset(t.Calls(t.Order(top))) == multiset(t.listed)
  {
    hide IsTree, Walk, Select, Named;
    ListedOnce(t, top);
    var order := t.Order(top);
    forall c | c in order
      ensures c in t.g
    {
      WalkBelow(t.g, PathOf(), t.height, top, t.task.Down?, c);
    }
    forall c | c in t.g
      ensures c in order
    {
      WalkReaches(t.g, PathOf(), t.height, top, t.task.Down?, c);
    }
  }

  /** Traversals that go parents first call a parent before its children, the others after them. */
  lemma ListedInOrder(t: Plan, root: Component, p: Component, k: string)
    requires t.Sound() && Rooted(t.g, PathOf(), root) && Named(t.g)
    requires p in t.g && k in t.g[p] && p in t.listed && t.g[p][k] in t.listed
    ensures RightWayRound(t.Calls(t.Order(root)), p, t.g[p][k], t.task.Down?)
  {
    hide IsTree, Walk, Select, Precedes;
    WalkReaches(t.g, PathOf(), t.height, root, t.task.Down?, p);
    assert "" !in t.g[p];
    WalkOrder(t.g, PathOf(), t.height, root, t.task.Down?, p, k);
    if t.task.Down? {
      SelectPrecedes(t.Order(root), Among(t.listed), p, t.g[p][k]);
    } else {
      SelectPrecedes(t.Order(root), Among(t.listed), t.g[p][k], p);
    }
  }

  lemma SelectPrecedes<R>(l: seq<R>, keep: R -> bool, x: R, y: R)
    requires Precedes(l, x, y) && keep(x) && keep(y)
    ensures Precedes(Select(l, keep), x, y)
  {
    hide Select;
    var i, j :| 0 <= i < j < |l| && l[i] == x && l[j] == y;
    var a, b := l[..i + 1], l[i + 1..];
    assert l == a + b && a[i] == x && b[j - i - 1] == y;
    SelectConcat(a, b, keep);
    SelectCount(a, keep, x);
    SelectCount(b, keep, y);
    PrecedesAcross(Select(a, keep), Select(b, keep), x, y);
  }

  // ----- a component that is never walked

  /** Adding a child under a name of the caller's choice files it under the empty name, and then no walk from the
      parent comes to it. */
  method AddNamedChild(parent: Component, child: Component, name: string)
    requires parent.children == map[] && parent.childrenByHandle == {} && child.children == map[] && parent != child
    requires name != "" && parent.path == [] && child.path == [""]
    modifies parent`children, parent`childrenByHandle
    ensures parent.children == map["" := child]
    ensures var g: Tree<Component> := map[parent := parent.children, child := child.children];
            && IsTree(g, PathOf(), 1) && Rooted(g, PathOf(), parent) && !Named(g)
            && forall parentFirst :: child !in Walk(g, PathOf(), 1, parent, parentFirst)
  {
    var added := parent.AddChild(child, name);
    ghost var g: Tree<Component> := map[parent := parent.children, child := child.children];
    assert parent.children == map["" := child];
    assert "" in g[parent] && g[parent][""] == child;
    assert Reached(g[parent]) == [];
  }
}
