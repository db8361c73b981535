/** The order in which the component tree is walked. */
module ComponentTree {
  import opened OrderedKeys

  /** The children of every component, by name. */
  type Tree<N> = map<N, map<string, N>>

  /** Every component has a hierarchical path of its own, and a child's path is its parent's with one name more. */
  ghost predicate IsTree<N>(g: Tree<N>, at: N -> seq<string>, height: nat) {
    && (forall p, k :: p in g && k in g[p] ==> g[p][k] in g && at(g[p][k]) == at(p) + [k])
    && (forall p :: p in g ==> |at(p)| <= height)
    && forall p, q :: p in g && q in g && at(p) == at(q) ==> p == q
  }

  lemma ChildDeeper<N>(g: Tree<N>, at: N -> seq<string>, height: nat, p: N, k: string)
    requires IsTree(g, at, height) && p in g && k in g[p]
    ensures g[p][k] in g && |at(p)| < |at(g[p][k])| <= height && at(g[p][k]) == at(p) + [k]
  {
    var c := g[p][k];
    assert at(c) == at(p) + [k];
  }

  /** All components hang below the root. */
  ghost predicate Rooted<N>(g: Tree<N>, at: N -> seq<string>, root: N) {
    && root in g && at(root) == []
    && forall c :: c in g && at(c) != [] ==> exists p, k :: p in g && k in g[p] && g[p][k] == c
  }

  /** No component goes by the empty name. */
  ghost predicate Named<N>(g: Tree<N>) {
    forall p :: p in g ==> "" !in g[p]
  }

  // ----- keys in map order

  ghost function Ordered(keys: set<string>): (order: seq<string>)
    ensures InOrder(order, keys)
  {
    OrderExists(keys);
    var order :| InOrder(order, keys);
    order
  }

  lemma {:induction false} OrderExists(keys: set<string>)
    ensures exists order :: InOrder(order, keys)
    decreases |keys|
  {
    if keys == {} {
      assert InOrder([], keys);
    } else {
      var k := FirstExists(keys);
      OrderExists(keys - {k});
      var order :| InOrder(order, keys - {k});
      forall i | 0 <= i < |order|
        ensures Before(k, order[i])
      {
        assert order[i] in order;
      }
      assert InOrder([k] + order, keys);
    }
  }

  lemma EmptyOrder(a: seq<string>, keys: set<string>)
    requires InOrder(a, keys)
    ensures a == [] <==> keys == {}
  {
    if a != [] {
      assert a[0] in a;
    }
  }

  lemma {:induction false} OrderUnique(a: seq<string>, b: seq<string>, keys: set<string>)
    requires InOrder(a, keys) && InOrder(b, keys)
    ensures a == b
    decreases |a|
  {
    EmptyOrder(a, keys);
    EmptyOrder(b, keys);
    if a != [] {
      SameHead(a, b, keys);
      TailInOrder(a, keys);
      TailInOrder(b, keys);
      OrderUnique(a[1..], b[1..], keys - {a[0]});
    }
  }

  lemma SameHead(a: seq<string>, b: seq<string>, keys: set<string>)
    requires InOrder(a, keys) && InOrder(b, keys) && a != [] && b != []
    ensures a[0] == b[0]
  {
    assert a[0] in a && b[0] in b;
    var i :| 0 <= i < |b| && b[i] == a[0];
    var j :| 0 <= j < |a| && a[j] == b[0];
    if i > 0 && j > 0 {
      BeforeTransitive(a[0], b[0], a[0]);
      BeforeIrreflexive(a[0]);
    }
  }

  lemma TailInOrder(a: seq<string>, keys: set<string>)
    requires InOrder(a, keys) && a != []
    ensures InOrder(a[1..], keys - {a[0]})
  {
    forall k | k in a[1..]
      ensures k != a[0]
    {
      var i :| 0 <= i < |a[1..]| && a[1..][i] == k;
      DistinctInOrder(a, keys, 0, i + 1);
    }
    forall k | k in keys - {a[0]}
      ensures k in a[1..]
    {
      assert k in a;
    }
  }

  lemma {:induction false} OrderLength(a: seq<string>, keys: set<string>)
    requires InOrder(a, keys)
    ensures |a| == |keys|
    decreases |a|
  {
    if a == [] {
      assert keys == {};
    } else {
      assert a[0] in a;
      TailInOrder(a, keys);
      OrderLength(a[1..], keys - {a[0]});
    }
  }

  // ----- the walk

  /** The names get_first_child and get_next_child come to. The empty name would come first, and ends the walk. */
  ghost function Reached<N>(children: map<string, N>): (order: seq<string>)
    ensures forall k :: k in order ==> k in children
    ensures "" !in children ==> forall k :: k in children ==> k in order
    ensures forall i, j :: 0 <= i < j < |order| ==> order[i] != order[j]
  {
    var order := Ordered(children.Keys);
    assert forall i, j :: 0 <= i < j < |order| ==> order[i] != order[j] by {
      forall i, j | 0 <= i < j < |order|
        ensures order[i] != order[j]
      {
        DistinctInOrder(order, children.Keys, i, j);
      }
    }
    if "" in children then [] else order
  }

  /** Counting through the keys in order comes to the same names, once the first was found. */
  lemma CursorReaches<N>(children: map<string, N>, i: nat)
    requires i == 0 || Reached(children) != []
    ensures var order, names := Ordered(children.Keys), Reached(children);
            && ((i < |order| && order[i] != "") <==> i < |names|) && (i < |names| ==> names[i] == order[i])
  {
    var order := Ordered(children.Keys);
    if "" in children {
      assert "" in order;
      var j :| 0 <= j < |order| && order[j] == "";
      assert j > 0 ==> Before(order[0], order[j]);
    } else if i < |order| {
      assert order[i] in order;
    }
  }

  /** Parents first or parents last. */
  ghost function Walk<N>(g: Tree<N>, at: N -> seq<string>, height: nat, c: N, parentFirst: bool): seq<N>
    requires IsTree(g, at, height) && c in g
    decreases height - |at(c)|, 1, 0
  {
    var below := Forest(g, at, height, c, Reached(g[c]), parentFirst);
    if parentFirst then [c] + below else below + [c]
  }

  ghost function Forest<N>(g: Tree<N>, at: N -> seq<string>, height: nat, p: N, names: seq<string>, parentFirst: bool): seq<N>
    requires IsTree(g, at, height) && p in g && forall k :: k in names ==> k in g[p]
    decreases height - |at(p)|, 0, |names|
  {
    if names == [] then []
    else
      assert names[0] in names;
      ChildDeeper(g, at, height, p, names[0]);
      Walk(g, at, height, g[p][names[0]], parentFirst) + Forest(g, at, height, p, names[1..], parentFirst)
  }

  lemma {:induction false} ForestConcat<N>(g: Tree<N>, at: N -> seq<string>, height: nat, p: N, a: seq<string>,
                                           b: seq<string>, parentFirst: bool)
    requires IsTree(g, at, height) && p in g && (forall k :: k in a ==> k in g[p]) && forall k :: k in b ==> k in g[p]
    ensures Forest(g, at, height, p, a + b, parentFirst)
         == Forest(g, at, height, p, a, parentFirst) + Forest(g, at, height, p, b, parentFirst)
    decreases |a|
  {
    hide Walk;
    if a == [] {
      assert a + b == b;
    } else {
      ForestConcat(g, at, height, p, a[1..], b, parentFirst);
      assert (a + b)[0] == a[0] && (a + b)[1..] == a[1..] + b;
    }
  }

  // ----- every component exactly once

  lemma {:induction false} WalkBelow<N>(g: Tree<N>, at: N -> seq<string>, height: nat, c: N, parentFirst: bool, x: N)
    requires IsTree(g, at, height) && c in g && x in Walk(g, at, height, c, parentFirst)
    ensures x in g && at(c) <= at(x)
    decreases height - |at(c)|, 1, 0
  {
    if x != c {
      var k := ForestBelow(g, at, height, c, Reached(g[c]), parentFirst, x);
    }
  }

  lemma {:induction false} ForestBelow<N>(g: Tree<N>, at: N -> seq<string>, height: nat, p: N, names: seq<string>,
                                          parentFirst: bool, x: N) returns (k: string)
    requires IsTree(g, at, height) && p in g && forall k :: k in names ==> k in g[p]
    requires x in Forest(g, at, height, p, names, parentFirst)
    ensures k in names && x in Walk(g, at, height, g[p][k], parentFirst) && x in g && at(p) + [k] <= at(x)
    decreases height - |at(p)|, 0, |names|
  {
    k := names[0];
    assert k in names;
    ChildDeeper(g, at, height, p, k);
    if x in Walk(g, at, height, g[p][k], parentFirst) {
      WalkBelow(g, at, height, g[p][k], parentFirst, x);
    } else {
      k := ForestBelow(g, at, height, p, names[1..], parentFirst, x);
    }
  }

  lemma {:induction false} WalkOnce<N>(g: Tree<N>, at: N -> seq<string>, height: nat, c: N, parentFirst: bool, x: N)
    requires IsTree(g, at, height) && c in g
    ensures multiset(Walk(g, at, height, c, parentFirst))[x] <= 1
    decreases height - |at(c)|, 1, 0
  {
    var names := Reached(g[c]);
    ForestOnce(g, at, height, c, names, parentFirst, x);
    if c in Forest(g, at, height, c, names, parentFirst) {
      var k := ForestBelow(g, at, height, c, names, parentFirst, c);
      assert false;
    }
  }

  lemma {:induction false} ForestOnce<N>(g: Tree<N>, at: N -> seq<string>, height: nat, p: N, names: seq<string>,
                                         parentFirst: bool, x: N)
    requires IsTree(g, at, height) && p in g && forall k :: k in names ==> k in g[p]
    requires forall i, j :: 0 <= i < j < |names| ==> names[i] != names[j]
    ensures multiset(Forest(g, at, height, p, names, parentFirst))[x] <= 1
    decreases height - |at(p)|, 0, |names|
  {
    if names != [] {
      var k := names[0];
      assert k in names;
      ChildDeeper(g, at, height, p, k);
      WalkOnce(g, at, height, g[p][k], parentFirst, x);
      ForestOnce(g, at, height, p, names[1..], parentFirst, x);
      SiblingsApart(g, at, height, p, names, parentFirst, x);
    }
  }

  /** The subtrees of two children share no component. */
  lemma SiblingsApart<N>(g: Tree<N>, at: N -> seq<string>, height: nat, p: N, names: seq<string>, parentFirst: bool, x: N)
    requires IsTree(g, at, height) && p in g && names != [] && forall k :: k in names ==> k in g[p]
    requires forall i, j :: 0 <= i < j < |names| ==> names[i] != names[j]
    ensures x !in Walk(g, at, height, g[p][names[0]], parentFirst) || x !in Forest(g, at, height, p, names[1..], parentFirst)
  {
    hide Walk, Forest;
    assert names[0] in names;
    if x in Walk(g, at, height, g[p][names[0]], parentFirst) && x in Forest(g, at, height, p, names[1..], parentFirst) {
      WalkBelow(g, at, height, g[p][names[0]], parentFirst, x);
      var j := ForestBelow(g, at, height, p, names[1..], parentFirst, x);
      SameStep(at(p), names[0], j, at(x));
      assert false;
    }
  }

  lemma SameStep(s: seq<string>, a: string, b: string, t: seq<string>)
    requires s + [a] <= t && s + [b] <= t
    ensures a == b
  {
    assert t[|s|] == a && t[|s|] == b;
  }

  lemma Counted<N>(l: seq<N>, x: N)
    ensures x in l <==> multiset(l)[x] > 0
  {
    assert x in l <==> x in multiset(l);
  }

  /** The parts a walk is made of share no component. */
  lemma PartsOnce<N>(g: Tree<N>, at: N -> seq<string>, height: nat, p: N, before: seq<N>, walk: seq<N>, after: seq<N>,
                     parentFirst: bool, x: N)
    requires IsTree(g, at, height) && p in g
    requires Forest(g, at, height, p, Reached(g[p]), parentFirst) == before + walk + after
    ensures !(x in before && x in walk) && !(x in walk && x in after) && !(x in before && x in after)
    ensures x == p ==> x !in before + walk + after
  {
    hide Forest, Reached;
    WalkOnce(g, at, height, p, parentFirst, x);
    var all := before + walk + after;
    assert multiset([p] + all) == multiset(all + [p]) == multiset{p} + multiset(before) + multiset(walk) + multiset(after);
    Counted(before, x);
    Counted(walk, x);
    Counted(after, x);
  }

  // ----- parents before or after their children

  ghost predicate Precedes<N>(l: seq<N>, x: N, y: N) {
    exists i, j :: 0 <= i < j < |l| && l[i] == x && l[j] == y
  }

  lemma PrecedesLift<N>(a: seq<N>, l: seq<N>, b: seq<N>, x: N, y: N)
    requires Precedes(l, x, y)
    ensures Precedes(a + l + b, x, y)
  {
    var i, j :| 0 <= i < j < |l| && l[i] == x && l[j] == y;
    assert (a + l + b)[|a| + i] == x && (a + l + b)[|a| + j] == y;
  }

  lemma PrecedesAcross<N>(a: seq<N>, b: seq<N>, x: N, y: N)
    requires x in a && y in b
    ensures Precedes(a + b, x, y)
  {
    var i :| 0 <= i < |a| && a[i] == x;
    var j :| 0 <= j < |b| && b[j] == y;
    assert (a + b)[i] == x && (a + b)[|a| + j] == y;
  }

  ghost predicate RightWayRound<N>(l: seq<N>, parent: N, child: N, parentFirst: bool) {
    if parentFirst then Precedes(l, parent, child) else Precedes(l, child, parent)
  }

  /** The walk from `c` holds the walk from every component it comes to, in one piece. */
  lemma {:induction false} WalkHolds<N>(g: Tree<N>, at: N -> seq<string>, height: nat, c: N, parentFirst: bool, p: N)
    returns (a: seq<N>, b: seq<N>)
    requires IsTree(g, at, height) && c in g && p in Walk(g, at, height, c, parentFirst)
    ensures p in g && Walk(g, at, height, c, parentFirst) == a + Walk(g, at, height, p, parentFirst) + b
    decreases height - |at(c)|, 1, 0
  {
    hide Reached;
    a, b := [], [];
    if p != c {
      a, b := ForestHolds(g, at, height, c, Reached(g[c]), parentFirst, p);
      if parentFirst {
        a := [c] + a;
      } else {
        b := b + [c];
      }
    }
  }

  lemma {:induction false} ForestHolds<N>(g: Tree<N>, at: N -> seq<string>, height: nat, c: N, names: seq<string>,
                                          parentFirst: bool, p: N) returns (a: seq<N>, b: seq<N>)
    requires IsTree(g, at, height) && c in g && forall j :: j in names ==> j in g[c]
    requires p in Forest(g, at, height, c, names, parentFirst)
    ensures p in g && Forest(g, at, height, c, names, parentFirst) == a + Walk(g, at, height, p, parentFirst) + b
    decreases height - |at(c)|, 0, |names|
  {
    hide Walk, Reached;
    assert names[0] in names;
    ChildDeeper(g, at, height, c, names[0]);
    var first := Walk(g, at, height, g[c][names[0]], parentFirst);
    var others := Forest(g, at, height, c, names[1..], parentFirst);
    if p in first {
      a, b := WalkHolds(g, at, height, g[c][names[0]], parentFirst, p);
      b := b + others;
    } else {
      a, b := ForestHolds(g, at, height, c, names[1..], parentFirst, p);
      a := first + a;
    }
  }

  /** Parents first: every child that is walked comes after its parent; parents last: before it. */
  lemma WalkOrder<N>(g: Tree<N>, at: N -> seq<string>, height: nat, c: N, parentFirst: bool, p: N, k: string)
    requires IsTree(g, at, height) && c in g && p in Walk(g, at, height, c, parentFirst)
    requires p in g && k in Reached(g[p])
    ensures RightWayRound(Walk(g, at, height, c, parentFirst), p, g[p][k], parentFirst)
  {
    hide Reached, Precedes, Forest;
    var a, b := WalkHolds(g, at, height, c, parentFirst, p);
    var below := Forest(g, at, height, p, Reached(g[p]), parentFirst);
    ForestHasChild(g, at, height, p, Reached(g[p]), parentFirst, k);
    EndsPrecede(p, below, g[p][k]);
    if parentFirst {
      PrecedesLift(a, [p] + below, b, p, g[p][k]);
    } else {
      PrecedesLift(a, below + [p], b, g[p][k], p);
    }
  }

  /** Siblings are walked in the order of their names. */
  lemma SiblingOrder<N>(g: Tree<N>, at: N -> seq<string>, height: nat, c: N, parentFirst: bool, p: N, j: string, k: string)
    requires IsTree(g, at, height) && c in g && p in Walk(g, at, height, c, parentFirst)
    requires p in g && j in Reached(g[p]) && k in Reached(g[p]) && Before(j, k)
    ensures Precedes(Walk(g, at, height, c, parentFirst), g[p][j], g[p][k])
  {
    hide Precedes, Forest, Before, Reached;
    var a, b := WalkHolds(g, at, height, c, parentFirst, p);
    var below := Forest(g, at, height, p, Reached(g[p]), parentFirst);
    ForestSiblings(g, at, height, p, parentFirst, j, k);
    if parentFirst {
      PrecedesLift(a + [p], below, b, g[p][j], g[p][k]);
      assert a + ([p] + below) + b == (a + [p]) + below + b;
    } else {
      PrecedesLift(a, below, [p] + b, g[p][j], g[p][k]);
      assert a + (below + [p]) + b == a + below + ([p] + b);
    }
  }

  lemma ForestSiblings<N>(g: Tree<N>, at: N -> seq<string>, height: nat, p: N, parentFirst: bool, j: string, k: string)
    requires IsTree(g, at, height) && p in g && j in Reached(g[p]) && k in Reached(g[p]) && Before(j, k)
    ensures Precedes(Forest(g, at, height, p, Reached(g[p]), parentFirst), g[p][j], g[p][k])
  {
    hide Precedes, Forest, Before, Reached;
    var names := Reached(g[p]);
    var m, n := InNameOrder(g[p], j, k);
    ForestConcat(g, at, height, p, names[..n], names[n..], parentFirst);
    assert names == names[..n] + names[n..] && names[..n][m] == j && names[n..][0] == k;
    ForestHasChild(g, at, height, p, names[..n], parentFirst, j);
    ForestHasChild(g, at, height, p, names[n..], parentFirst, k);
    PrecedesAcross(Forest(g, at, height, p, names[..n], parentFirst), Forest(g, at, height, p, names[n..], parentFirst),
                   g[p][j], g[p][k]);
  }

  lemma InNameOrder<N>(children: map<string, N>, j: string, k: string) returns (m: nat, n: nat)
    requires j in Reached(children) && k in Reached(children) && Before(j, k)
    ensures m < n < |Reached(children)| && Reached(children)[m] == j && Reached(children)[n] == k
  {
    hide Before;
    var names := Reached(children);
    m :| m < |names| && names[m] == j;
    n :| n < |names| && names[n] == k;
    BeforeIrreflexive(j);
    if n < m {
      BeforeTransitive(j, k, j);
    }
  }

  lemma EndsPrecede<N>(c: N, below: seq<N>, child: N)
    requires child in below
    ensures Precedes([c] + below, c, child) && Precedes(below + [c], child, c)
  {
    var i :| 0 <= i < |below| && below[i] == child;
    assert ([c] + below)[0] == c && ([c] + below)[i + 1] == child;
    assert (below + [c])[i] == child && (below + [c])[|below|] == c;
  }

  lemma {:induction false} ForestHasChild<N>(g: Tree<N>, at: N -> seq<string>, height: nat, p: N, names: seq<string>,
                                             parentFirst: bool, k: string)
    requires IsTree(g, at, height) && p in g && (forall j :: j in names ==> j in g[p]) && k in names
    ensures g[p][k] in Forest(g, at, height, p, names, parentFirst)
    decreases |names|
  {
    hide Walk;
    if k == names[0] {
      WalkHasRoot(g, at, height, g[p][k], parentFirst);
    } else {
      ForestHasChild(g, at, height, p, names[1..], parentFirst, k);
    }
  }

  lemma WalkHasRoot<N>(g: Tree<N>, at: N -> seq<string>, height: nat, c: N, parentFirst: bool)
    requires IsTree(g, at, height) && c in g
    ensures c in Walk(g, at, height, c, parentFirst)
  {
  }

  lemma PrecedesMeans<N>(l: seq<N>, x: N, y: N)
    requires Precedes(l, x, y)
    ensures x in l && y in l
  {
  }

  lemma {:induction false} WalkReaches<N>(g: Tree<N>, at: N -> seq<string>, height: nat, root: N, parentFirst: bool, x: N)
    requires IsTree(g, at, height) && Rooted(g, at, root) && Named(g) && x in g
    ensures x in Walk(g, at, height, root, parentFirst)
    decreases |at(x)|
  {
    if at(x) == [] {
      WalkHasRoot(g, at, height, root, parentFirst);
    } else {
      var p, k :| p in g && k in g[p] && g[p][k] == x;
      ChildDeeper(g, at, height, p, k);
      WalkReaches(g, at, height, root, parentFirst, p);
      WalkOrder(g, at, height, root, parentFirst, p, k);
      var l := Walk(g, at, height, root, parentFirst);
      if parentFirst { PrecedesMeans(l, p, x); } else { PrecedesMeans(l, x, p); }
    }
  }

  /** A walk finds a component only through its parent, by a name it comes to. */
  lemma {:induction false} WalkHasParent<N>(g: Tree<N>, at: N -> seq<string>, height: nat, c: N, parentFirst: bool, x: N)
    returns (p: N, k: string)
    requires IsTree(g, at, height) && c in g && x in Walk(g, at, height, c, parentFirst) && x != c
    ensures p in g && k in Reached(g[p]) && g[p][k] == x
    decreases height - |at(c)|, 1
  {
    hide Reached;
    k := ForestBelow(g, at, height, c, Reached(g[c]), parentFirst, x);
    ChildDeeper(g, at, height, c, k);
    if g[c][k] == x {
      p := c;
    } else {
      p, k := WalkHasParent(g, at, height, g[c][k], parentFirst, x);
    }
  }

  /** Either walk from the root comes to every component exactly once, just when none goes by the empty name. */
  lemma EveryComponentOnce<N>(g: Tree<N>, at: N -> seq<string>, height: nat, root: N, parentFirst: bool)
    requires IsTree(g, at, height) && Rooted(g, at, root)
    ensures multiset(Walk(g, at, height, root, parentFirst)) == multiset(g.Keys) <==> Named(g)
  {
    hide Walk;
    if Named(g) {
      NamedOnce(g, at, height, root, parentFirst);
    } else {
      var p :| p in g && "" in g[p];
      var x := g[p][""];
      ChildDeeper(g, at, height, p, "");
      assert at(x)[|at(x)| - 1] == "";
      if x in Walk(g, at, height, root, parentFirst) {
        var q, k := WalkHasParent(g, at, height, root, parentFirst, x);
        ChildDeeper(g, at, height, q, k);
        assert false;
      }
      assert x !in multiset(Walk(g, at, height, root, parentFirst));
      assert x in multiset(g.Keys);
    }
  }

  lemma NamedOnce<N>(g: Tree<N>, at: N -> seq<string>, height: nat, root: N, parentFirst: bool)
    requires IsTree(g, at, height) && Rooted(g, at, root) && Named(g)
    ensures multiset(Walk(g, at, height, root, parentFirst)) == multiset(g.Keys)
  {
    hide Walk;
    var l := Walk(g, at, height, root, parentFirst);
    forall x | x in multiset(l) + multiset(g.Keys)
      ensures multiset(l)[x] == multiset(g.Keys)[x]
    {
      WalkOnce(g, at, height, root, parentFirst, x);
      assert x in l || x in g;
      if x in l {
        WalkBelow(g, at, height, root, parentFirst, x);
      }
      WalkReaches(g, at, height, root, parentFirst, x);
      assert x in multiset(l);
    }
  }
}
