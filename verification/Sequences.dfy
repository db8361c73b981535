/** Reversing sequences, and selecting elements without changing their order. */
module Sequences {
  lemma ConcatAssoc<T>(a: seq<T>, b: seq<T>, c: seq<T>)
    ensures (a + b) + c == a + (b + c)
  {
  }

  lemma OneMore<T>(s: seq<T>, i: nat)
    requires i < |s|
    ensures s[..i + 1] == s[..i] + [s[i]]
  {
  }

  function Reverse<T>(s: seq<T>): (r: seq<T>)
    ensures |r| == |s|
    ensures forall i :: 0 <= i < |s| ==> r[i] == s[|s| - 1 - i]
  {
    seq(|s|, i requires 0 <= i < |s| => s[|s| - 1 - i])
  }

  function Select<R>(q: seq<R>, keep: R -> bool): seq<R> {
    if q == [] then [] else (if keep(q[0]) then [q[0]] else []) + Select(q[1..], keep)
  }

  lemma {:induction false} SelectConcat<R>(a: seq<R>, b: seq<R>, keep: R -> bool)
    ensures Select(a + b, keep) == Select(a, keep) + Select(b, keep)
  {
    if a == [] {
      assert a + b == b;
    } else {
      SelectConcat(a[1..], b, keep);
      assert (a + b)[0] == a[0] && (a + b)[1..] == a[1..] + b;
      ConcatAssoc(if keep(a[0]) then [a[0]] else [], Select(a[1..], keep), Select(b, keep));
    }
  }

  lemma {:induction false} SelectLast<R>(q: seq<R>, r: R, keep: R -> bool)
    ensures Select(q + [r], keep) == if keep(r) then Select(q, keep) + [r] else Select(q, keep)
  {
    SelectConcat(q, [r], keep);
    assert [r][1..] == [];
  }

  ghost function Among<R>(some: set<R>): R -> bool {
    x => x in some
  }

  lemma AmongMeans<R>(some: set<R>, x: R)
    ensures Among(some)(x) <==> x in some
  {
  }

  lemma SelectOne<R>(r: R, keep: R -> bool)
    ensures Select([r], keep) == if keep(r) then [r] else []
  {
    assert [r][1..] == [];
  }

  lemma {:induction false} SelectSwaps<R>(q: seq<R>, a: R -> bool, b: R -> bool)
    ensures Select(Select(q, a), b) == Select(Select(q, b), a)
  {
    if q != [] {
      SelectSwaps(q[1..], a, b);
      SelectConcat(if a(q[0]) then [q[0]] else [], Select(q[1..], a), b);
      SelectConcat(if b(q[0]) then [q[0]] else [], Select(q[1..], b), a);
      assert [q[0]][1..] == [];
    }
  }

  lemma {:induction false} SelectCount<R>(q: seq<R>, keep: R -> bool, r: R)
    ensures multiset(Select(q, keep))[r] == if keep(r) then multiset(q)[r] else 0
    ensures r in Select(q, keep) <==> r in q && keep(r)
  {
    if q != [] {
      SelectCount(q[1..], keep, r);
      assert q == [q[0]] + q[1..];
    }
    assert r in Select(q, keep) <==> r in multiset(Select(q, keep));
    assert r in q <==> r in multiset(q);
  }

  /** The first element kept comes first. */
  lemma {:induction false} SelectHead<R>(q: seq<R>, keep: R -> bool, i: nat)
    requires i < |q| && keep(q[i]) && forall j :: 0 <= j < i ==> !keep(q[j])
    ensures Select(q, keep) != [] && Select(q, keep)[0] == q[i]
  {
    if i > 0 {
      SelectHead(q[1..], keep, i - 1);
    }
  }

  lemma {:induction false} SelectAll<R>(q: seq<R>, keep: R -> bool)
    requires forall r :: r in q ==> keep(r)
    ensures Select(q, keep) == q
  {
    if q != [] {
      SelectAll(q[1..], keep);
    }
  }

  lemma {:induction false} SelectNone<R>(q: seq<R>, keep: R -> bool)
    requires forall r :: r in q ==> !keep(r)
    ensures Select(q, keep) == []
  {
    if q != [] {
      SelectNone(q[1..], keep);
    }
  }

  lemma {:induction false} SelectAlike<R>(q: seq<R>, a: R -> bool, b: R -> bool)
    requires forall r :: r in q ==> a(r) == b(r)
    ensures Select(q, a) == Select(q, b)
  {
    if q != [] {
      SelectAlike(q[1..], a, b);
    }
  }

  ghost function Both<R>(a: R -> bool, b: R -> bool): R -> bool {
    x => a(x) && b(x)
  }

  lemma {:induction false} SelectBoth<R>(q: seq<R>, a: R -> bool, b: R -> bool)
    ensures Select(Select(q, a), b) == Select(q, Both(a, b))
  {
    if q != [] {
      SelectBoth(q[1..], a, b);
      SelectConcat(if a(q[0]) then [q[0]] else [], Select(q[1..], a), b);
      assert [q[0]][1..] == [];
    }
  }

  lemma InReverse<R>(s: seq<R>, x: R)
    ensures x in Reverse(s) <==> x in s
  {
    if x in s {
      var i :| 0 <= i < |s| && s[i] == x;
      assert Reverse(s)[|s| - 1 - i] == x;
    }
  }

  lemma ReverseLast<R>(s: seq<R>, x: R)
    ensures Reverse(s + [x]) == [x] + Reverse(s)
  {
  }

  lemma SelectReverseLast<R>(s: seq<R>, x: R, keep: R -> bool)
    ensures Select(Reverse(s + [x]), keep)
         == if keep(x) then [x] + Select(Reverse(s), keep) else Select(Reverse(s), keep)
  {
    ReverseLast(s, x);
    assert ([x] + Reverse(s))[1..] == Reverse(s);
  }
}
