/** Choosing by precedence: the bucket sort, and the selectors that take the first of the greatest. */
module Precedence {
  import opened ResourcePool
  import opened Sequences

  // ----- sorted and stable

  ghost predicate KeyedBy<R>(q: seq<R>, key: map<R, int>) {
    forall r :: r in q ==> r in key
  }

  ghost function Having<R>(key: map<R, int>, k: int): R -> bool {
    r => r in key && key[r] == k
  }

  ghost predicate Descending<R>(s: seq<R>, key: map<R, int>) {
    KeyedBy(s, key) && forall i, j :: 0 <= i < j < |s| ==> key[s[i]] >= key[s[j]]
  }

  /** For every key the same elements in the same order. */
  ghost predicate SameOrder<R>(s: seq<R>, q: seq<R>, key: map<R, int>) {
    forall k :: Select(s, Having(key, k)) == Select(q, Having(key, k))
  }

  ghost predicate StableDescending<R>(s: seq<R>, q: seq<R>, key: map<R, int>) {
    KeyedBy(q, key) && Descending(s, key) && SameOrder(s, q, key)
  }

  lemma SortedPermutes<R>(s: seq<R>, q: seq<R>, key: map<R, int>)
    requires StableDescending(s, q, key)
    ensures multiset(s) == multiset(q)
  {
    forall r | r in multiset(s) + multiset(q)
      ensures multiset(s)[r] == multiset(q)[r]
    {
      assert r in s || r in q;
      SelectCount(s, Having(key, key[r]), r);
      SelectCount(q, Having(key, key[r]), r);
    }
  }

  /** The first element with the greatest key. */
  ghost predicate FirstGreatestAt<R>(q: seq<R>, key: map<R, int>, i: nat) {
    && KeyedBy(q, key) && i < |q|
    && (forall j :: 0 <= j < |q| ==> key[q[j]] <= key[q[i]])
    && (forall j :: 0 <= j < i ==> key[q[j]] < key[q[i]])
  }

  ghost predicate FirstGreatest<R>(q: seq<R>, key: map<R, int>, r: R) {
    exists i: nat :: FirstGreatestAt(q, key, i) && q[i] == r
  }

  lemma FirstGreatestOne<R>(r: R, key: map<R, int>)
    requires r in key
    ensures FirstGreatest([r], key, r)
  {
    assert FirstGreatestAt([r], key, 0);
  }

  lemma FirstGreatestLast<R>(q: seq<R>, key: map<R, int>, best: R, r: R)
    requires FirstGreatest(q, key, best) && r in key
    ensures best in key && FirstGreatest(q + [r], key, if key[r] > key[best] then r else best)
  {
    var i: nat :| FirstGreatestAt(q, key, i) && q[i] == best;
    assert FirstGreatestAt(q + [r], key, if key[r] > key[best] then |q| else i);
  }

  lemma GreatestMeans<R>(q: seq<R>, key: map<R, int>, r: R)
    requires FirstGreatest(q, key, r)
    ensures r in q && KeyedBy(q, key) && forall x :: x in q ==> key[x] <= key[r]
  {
  }

  /** The first of the greatest among the elements kept, by position in the whole queue. */
  lemma {:induction false} SelectedGreatest<R>(q: seq<R>, keep: R -> bool, key: map<R, int>, r: R) returns (i: nat)
    requires FirstGreatest(Select(q, keep), key, r)
    ensures i < |q| && q[i] == r && keep(r) && r in key
    ensures forall j :: 0 <= j < |q| && keep(q[j]) ==> q[j] in key && key[q[j]] <= key[r]
    ensures forall j :: 0 <= j < i && keep(q[j]) ==> key[q[j]] < key[r]
  {
    hide FirstGreatest;
    GreatestMeans(Select(q, keep), key, r);
    forall j | 0 <= j < |q| && keep(q[j])
      ensures q[j] in Select(q, keep)
    {
      SelectCount(q, keep, q[j]);
    }
    if keep(q[0]) && r == q[0] {
      i := 0;
    } else {
      GreatestTail(q, keep, key, r);
      i := SelectedGreatest(q[1..], keep, key, r);
      i := i + 1;
    }
  }

  lemma GreatestTail<R>(q: seq<R>, keep: R -> bool, key: map<R, int>, r: R)
    requires q != [] && FirstGreatest(Select(q, keep), key, r) && (keep(q[0]) ==> r != q[0])
    ensures FirstGreatest(Select(q[1..], keep), key, r)
    ensures keep(q[0]) ==> q[0] in key && r in key && key[q[0]] < key[r]
  {
    var all, rest := Select(q, keep), Select(q[1..], keep);
    var k: nat :| FirstGreatestAt(all, key, k) && all[k] == r;
    if keep(q[0]) {
      assert all[0] == q[0] && all[1..] == rest;
      assert FirstGreatestAt(rest, key, k - 1);
    } else {
      assert all == rest;
    }
  }

  /** A stable sort puts the first of the greatest at the head. */
  lemma SortedHead<R>(s: seq<R>, q: seq<R>, key: map<R, int>, best: R)
    requires StableDescending(s, q, key) && FirstGreatest(q, key, best)
    ensures s != [] && s[0] == best
  {
    var i: nat :| FirstGreatestAt(q, key, i) && q[i] == best;
    var has := Having(key, key[best]);
    SortedPermutes(s, q, key);
    assert best in multiset(q) && |multiset(s)| == |s| && |multiset(q)| == |q|;
    assert best in s;
    assert s[0] in multiset(s);
    assert key[s[0]] == key[best];
    SelectHead(q, has, i);
    SelectHead(s, has, 0);
  }

  lemma {:induction false} GreatestExists<R>(q: seq<R>, key: map<R, int>) returns (best: R)
    requires q != [] && KeyedBy(q, key)
    ensures FirstGreatest(q, key, best)
  {
    var n := |q| - 1;
    if n == 0 {
      FirstGreatestOne(q[0], key);
      assert q == [q[0]];
      best := q[0];
    } else {
      best := GreatestExists(q[..n], key);
      FirstGreatestLast(q[..n], key, best, q[n]);
      assert q == q[..n] + [q[n]];
      best := if key[q[n]] > key[best] then q[n] else best;
    }
  }

  /** The first element kept of a sorted queue is the first of the greatest kept of the original. */
  lemma Chosen<R>(s: seq<R>, q: seq<R>, key: map<R, int>, keep: R -> bool, i: nat)
    requires StableDescending(s, q, key) && i < |s| && keep(s[i]) && Select(s[..i], keep) == []
    ensures Select(q, keep) != [] && FirstGreatest(Select(q, keep), key, s[i])
  {
    forall j | 0 <= j < i
      ensures !keep(s[j])
    {
      SelectCount(s[..i], keep, s[j]);
      assert s[..i][j] == s[j];
    }
    SelectHead(s, keep, i);
    SortedSelect(s, q, key, keep);
    SortedPermutes(Select(s, keep), Select(q, keep), key);
    assert |multiset(Select(s, keep))| == |multiset(Select(q, keep))|;
    var best := GreatestExists(Select(q, keep), key);
    SortedHead(Select(s, keep), Select(q, keep), key, best);
  }

  lemma NoneChosen<R>(s: seq<R>, q: seq<R>, key: map<R, int>, keep: R -> bool)
    requires StableDescending(s, q, key) && Select(s, keep) == []
    ensures Select(q, keep) == []
  {
    SortedSelect(s, q, key, keep);
    SortedPermutes(Select(s, keep), Select(q, keep), key);
    assert |multiset(Select(s, keep))| == |multiset(Select(q, keep))|;
  }

  /** Two stable sorts of one queue are the same queue. */
  lemma {:induction false} SortedUnique<R>(a: seq<R>, b: seq<R>, key: map<R, int>)
    requires Descending(a, key) && Descending(b, key) && SameOrder(a, b, key)
    ensures a == b
  {
    if a == [] || b == [] {
      SortedPermutes(a, b, key);
      assert |multiset(a)| == |a| && |multiset(b)| == |b|;
    } else {
      assert FirstGreatestAt(b, key, 0);
      SortedHead(a, b, key, b[0]);
      forall k
        ensures Select(a[1..], Having(key, k)) == Select(b[1..], Having(key, k))
      {
        TailSelected(a, Having(key, k));
        TailSelected(b, Having(key, k));
      }
      SortedUnique(a[1..], b[1..], key);
    }
  }

  lemma TailSelected<R>(q: seq<R>, keep: R -> bool)
    requires q != []
    ensures Select(q[1..], keep) == if keep(q[0]) then Select(q, keep)[1..] else Select(q, keep)
  {
  }

  /** Sorting and then dropping elements is dropping them and then sorting. */
  lemma SortedSelect<R>(s: seq<R>, q: seq<R>, key: map<R, int>, keep: R -> bool)
    requires StableDescending(s, q, key)
    ensures StableDescending(Select(s, keep), Select(q, keep), key)
  {
    forall k
      ensures Select(Select(s, keep), Having(key, k)) == Select(Select(q, keep), Having(key, k))
    {
      SelectSwaps(s, keep, Having(key, k));
      SelectSwaps(q, keep, Having(key, k));
    }
    DescendingSelect(s, key, keep);
    forall r | r in Select(q, keep)
      ensures r in key
    {
      SelectCount(q, keep, r);
    }
  }

  lemma {:induction false} DescendingSelect<R>(s: seq<R>, key: map<R, int>, keep: R -> bool)
    requires Descending(s, key)
    ensures Descending(Select(s, keep), key)
  {
    if s != [] {
      var rest := Select(s[1..], keep);
      DescendingSelect(s[1..], key, keep);
      forall i | 0 <= i < |rest|
        ensures key[s[0]] >= key[rest[i]]
      {
        SelectCount(s[1..], keep, rest[i]);
      }
      if keep(s[0]) {
        assert Select(s, keep) == [s[0]] + rest;
      } else {
        assert Select(s, keep) == rest;
      }
    }
  }

  // ----- unsigned precedences under signed keys

  const HALF: nat := 0x8000_0000

  /** Converting unsigned int to the int key of the bucket map. */
  function AsSigned(p: int): int {
    if p < HALF then p else p - 2 * HALF
  }

  ghost function Signed<R>(prec: map<R, int>): map<R, int> {
    map r | r in prec :: AsSigned(prec[r])
  }

  ghost predicate SameSide<R>(q: seq<R>, prec: map<R, int>)
    requires KeyedBy(q, prec)
  {
    (forall r :: r in q ==> prec[r] < HALF) || (forall r :: r in q ==> prec[r] >= HALF)
  }

  ghost predicate Unsigned<R>(q: seq<R>, prec: map<R, int>) {
    KeyedBy(q, prec) && forall r :: r in q ==> 0 <= prec[r] < 2 * HALF
  }

  /** Sorting by the signed key sorts by precedence just when no two precedences lie on different sides of 2^31. */
  lemma SortedByPrecedence<R>(s: seq<R>, q: seq<R>, prec: map<R, int>)
    requires Unsigned(q, prec) && StableDescending(s, q, Signed(prec))
    ensures StableDescending(s, q, prec) <==> SameSide(q, prec)
  {
    hide SameOrder;
    SortedPermutes(s, q, Signed(prec));
    if SameSide(q, prec) {
      SameSideSorts(s, q, prec);
    } else {
      MixedSidesDoNot(s, q, prec);
    }
  }

  lemma MixedSidesDoNot<R>(s: seq<R>, q: seq<R>, prec: map<R, int>)
    requires Unsigned(q, prec) && Descending(s, Signed(prec)) && !SameSide(q, prec)
    requires multiset(s) == multiset(q)
    ensures !Descending(s, prec)
  {
    var a :| a in q && prec[a] >= HALF;
    var b :| b in q && prec[b] < HALF;
    assert a in multiset(q) && b in multiset(q);
    var i :| 0 <= i < |s| && s[i] == a;
    var j :| 0 <= j < |s| && s[j] == b;
    assert Signed(prec)[s[j]] > Signed(prec)[s[i]];
    assert prec[s[j]] < prec[s[i]];
  }

  lemma SameSideSorts<R>(s: seq<R>, q: seq<R>, prec: map<R, int>)
    requires Unsigned(q, prec) && StableDescending(s, q, Signed(prec)) && SameSide(q, prec)
    requires multiset(s) == multiset(q)
    ensures StableDescending(s, q, prec)
  {
    hide Select;
    assert forall r :: r in s ==> r in multiset(s);
    assert forall r :: r in s ==> r in q;
    forall k
      ensures Select(s, Having(prec, k)) == Select(q, Having(prec, k))
    {
      PrecedenceSelected(s, q, prec, k);
    }
  }

  lemma PrecedenceSelected<R>(s: seq<R>, q: seq<R>, prec: map<R, int>, k: int)
    requires Unsigned(q, prec) && Unsigned(s, prec) && SameOrder(s, q, Signed(prec))
    ensures Select(s, Having(prec, k)) == Select(q, Having(prec, k))
  {
    if 0 <= k < 2 * HALF {
      SelectAlike(s, Having(prec, k), Having(Signed(prec), AsSigned(k)));
      SelectAlike(q, Having(prec, k), Having(Signed(prec), AsSigned(k)));
    } else {
      SelectNone(s, Having(prec, k));
      SelectNone(q, Having(prec, k));
    }
  }

  /** Whichever elements are admitted, the first of them after sorting is the first of those with the greatest
      precedence before sorting, just when their precedences lie on one side of 2^31. */
  lemma SelectorsAgree<R>(s: seq<R>, q: seq<R>, prec: map<R, int>, keep: R -> bool, best: R)
    requires Unsigned(q, prec) && StableDescending(s, q, Signed(prec))
    requires FirstGreatest(Select(q, keep), prec, best)
    ensures Select(s, keep) != []
    ensures Select(s, keep)[0] == best <==> SameSide(Select(q, keep), prec)
  {
    var s', q' := Select(s, keep), Select(q, keep);
    SortedSelect(s, q, Signed(prec), keep);
    SortedPermutes(s', q', Signed(prec));
    assert |multiset(s')| == |s'| && |multiset(q')| == |q'|;
    forall r | r in q'
      ensures r in q
    {
      SelectCount(q, keep, r);
    }
    SortedByPrecedence(s', q', prec);
    if SameSide(q', prec) {
      SortedHead(s', q', prec, best);
    } else {
      SplitHead(s', q', prec, best);
    }
  }

  /** The first of the signed greatest is the first of the greatest just when one side of 2^31 holds them all. */
  lemma SignedGreatest<R>(q: seq<R>, prec: map<R, int>, r: R)
    requires Unsigned(q, prec) && FirstGreatest(q, Signed(prec), r)
    ensures FirstGreatest(q, prec, r) <==> SameSide(q, prec)
  {
    var i: nat :| FirstGreatestAt(q, Signed(prec), i) && q[i] == r;
    if SameSide(q, prec) {
      assert FirstGreatestAt(q, prec, i);
    } else {
      var a :| a in q && prec[a] >= HALF;
      var b :| b in q && prec[b] < HALF;
      assert Signed(prec)[b] <= Signed(prec)[r];
      assert prec[r] < prec[a];
    }
  }

  lemma SplitHead<R>(s: seq<R>, q: seq<R>, prec: map<R, int>, best: R)
    requires Unsigned(q, prec) && StableDescending(s, q, Signed(prec)) && s != []
    requires FirstGreatest(q, prec, best) && !SameSide(q, prec)
    ensures s[0] != best
  {
    var a :| a in q && prec[a] >= HALF;
    var b :| b in q && prec[b] < HALF;
    SortedPermutes(s, q, Signed(prec));
    assert b in multiset(q);
    assert b in s;
    assert prec[best] >= prec[a];
    assert Signed(prec)[s[0]] >= Signed(prec)[b];
  }

  // ----- the three members of the library

  ghost function Precedences<V>(q: seq<Resource<V>>): map<Resource<V>, int>
    reads q
  {
    map r | r in q :: r.precedence
  }

  lemma PrecedencesOf<V>(q: seq<Resource<V>>)
    ensures var key := Signed(Precedences(q));
            key.Keys == (set r | r in q) && forall r :: r in q ==> key[r] == AsSigned(r.precedence)
  {
  }

  function HasType<V>(types: set<TypeHandle>): Resource<V> -> bool {
    (r: Resource<V>) => r.typeHandle in types
  }

  /** What the bucket map holds under a key. */
  function Bucket<R>(all: map<int, seq<R>>, k: int): seq<R> {
    if k in all then all[k] else []
  }

  lemma SomeKey<T>(keys: set<T>) returns (x: T)
    requires keys != {}
    ensures x in keys
  {
    x :| x in keys;
  }

  lemma {:induction false} MinExists(keys: set<int>) returns (k: int)
    requires keys != {}
    ensures k in keys && forall j :: j in keys ==> k <= j
  {
    var x := SomeKey(keys);
    var rest := keys - {x};
    if rest == {} {
      assert keys == {x};
      return x;
    }
    var y := MinExists(rest);
    k := if x < y then x else y;
    forall j | j in keys
      ensures k <= j
    {
      assert j == x || j in rest;
    }
  }

  /** The bucket map holds the elements of `q` by key, last first. */
  ghost predicate Bucketed<R>(all: map<int, seq<R>>, q: seq<R>, key: map<R, int>) {
    forall k :: Bucket(all, k) == Reverse(Select(q, Having(key, k)))
  }

  lemma NothingBucketed<R>(key: map<R, int>)
    ensures Bucketed(map[], [], key)
  {
  }

  lemma BucketGrows<R>(all: map<int, seq<R>>, q: seq<R>, key: map<R, int>, r: R)
    requires Bucketed(all, q, key) && r in key
    ensures Bucketed(all[key[r] := [r] + Bucket(all, key[r])], q + [r], key)
  {
    hide Select, Reverse, Bucket;
    forall k
      ensures Bucket(all[key[r] := [r] + Bucket(all, key[r])], k) == Reverse(Select(q + [r], Having(key, k)))
    {
      SelectLast(q, r, Having(key, k));
      ReverseLast(Select(q, Having(key, k)), r);
      BucketChanged(all, key[r], [r] + Bucket(all, key[r]), k);
    }
  }

  lemma BucketChanged<R>(all: map<int, seq<R>>, k: int, b: seq<R>, j: int)
    ensures Bucket(all[k := b], j) == if j == k then b else Bucket(all, j)
  {
  }

  /** `s` is sorted, lies above the keys still to come, and is complete for all others. */
  ghost predicate SortedAbove<R>(s: seq<R>, q: seq<R>, key: map<R, int>, rest: set<int>) {
    && KeyedBy(q, key) && Descending(s, key)
    && (forall r, k :: r in s && k in rest ==> key[r] < k)
    && forall k :: Select(s, Having(key, k)) == if k in rest then [] else Select(q, Having(key, k))
  }

  lemma NothingDone<R>(all: map<int, seq<R>>, q: seq<R>, key: map<R, int>)
    requires Bucketed(all, q, key) && KeyedBy(q, key)
    ensures SortedAbove([], q, key, all.Keys)
  {
    forall k | k !in all
      ensures Select(q, Having(key, k)) == []
    {
      assert Bucket(all, k) == [];
    }
  }

  /** Putting the elements of the least key to come in front keeps the result sorted and stable. */
  lemma BucketDone<R>(s: seq<R>, q: seq<R>, key: map<R, int>, rest: set<int>, k: int)
    requires SortedAbove(s, q, key, rest) && k in rest && forall j :: j in rest ==> k <= j
    ensures SortedAbove(Select(q, Having(key, k)) + s, q, key, rest - {k})
  {
    hide Select;
    var bucket := Select(q, Having(key, k));
    forall r | r in bucket
      ensures r in key && key[r] == k
    {
      SelectCount(q, Having(key, k), r);
    }
    forall j
      ensures Select(bucket + s, Having(key, j)) == if j in rest - {k} then [] else Select(q, Having(key, j))
    {
      SelectConcat(bucket, s, Having(key, j));
      if j == k {
        SelectAll(bucket, Having(key, j));
      } else {
        SelectNone(bucket, Having(key, j));
      }
    }
  }

  method PushAll<R>(bucket: seq<R>, s: seq<R>) returns (s': seq<R>)
    ensures s' == Reverse(bucket) + s
  {
    s' := s;
    for j := 0 to |bucket|
      invariant s' == Reverse(bucket[..j]) + s
    {
      s' := [bucket[j]] + s';
      assert Reverse(bucket[..j + 1]) == [bucket[j]] + Reverse(bucket[..j]);
    }
    assert bucket[..|bucket|] == bucket;
  }

  /** Puts every resource in front of the bucket of its key, then the buckets, in ascending order of key and each
      front first, in front of the result. */
  method SortByPrecedence<V>(q: seq<Resource<V>>) returns (s: seq<Resource<V>>)
    ensures StableDescending(s, q, Signed(Precedences(q)))
  {
    ghost var key := Signed(Precedences(q));
    PrecedencesOf(q);
    NothingBucketed(key);
    hide Bucketed, Select, Signed, Precedences, StableDescending;
    assert q[..0] == [];
    var all: map<int, seq<Resource<V>>> := map[];
    for i := 0 to |q|
      invariant Bucketed(all, q[..i], key)
    {
      var r := q[i];
      var k := AsSigned(r.precedence);
      assert r in q && key[r] == k;
      ghost var before := all;
      BucketGrows(all, q[..i], key, r);
      assert q[..i + 1] == q[..i] + [r];
      if k !in all {
        all := all[k := []];
      }
      all := all[k := [r] + all[k]];
      assert all == before[k := [r] + Bucket(before, k)];
    }
    assert q[..|q|] == q;
    s := EmptyBuckets(q, key, all);
  }

  method EmptyBuckets<R>(ghost q: seq<R>, ghost key: map<R, int>, all: map<int, seq<R>>) returns (s: seq<R>)
    requires KeyedBy(q, key) && Bucketed(all, q, key)
    ensures StableDescending(s, q, key)
  {
    s := [];
    var rest := all.Keys;
    NothingDone(all, q, key);
    while rest != {}
      invariant rest <= all.Keys && SortedAbove(s, q, key, rest)
    {
      hide SortedAbove, Select;
      ghost var first := MinExists(rest);
      var k :| k in rest && forall j :: j in rest ==> k <= j;
      BucketDone(s, q, key, rest, k);
      assert Bucket(all, k) == all[k] && Reverse(all[k]) == Select(q, Having(key, k));
      s := PushAll(all[k], s);
      rest := rest - {k};
    }
  }

  /** Of the resources of the given types the one at `i` is the first of greatest precedence, as an unsigned or as a
      signed number. */
  ghost predicate FirstOfTypes<V>(q: seq<Resource<V>>, types: set<TypeHandle>, signed: bool, i: int)
    reads q
  {
    && 0 <= i < |q| && q[i].typeHandle in types
    && forall j :: 0 <= j < |q| && q[j].typeHandle in types ==>
         var p, best := q[j].precedence, q[i].precedence;
         if signed then AsSigned(p) <= AsSigned(best) && (j < i ==> AsSigned(p) < AsSigned(best))
         else p <= best && (j < i ==> p < best)
  }

  lemma SelectedOfTypes<V>(q: seq<Resource<V>>, types: set<TypeHandle>, signed: bool, r: Resource<V>)
    requires var prec := Precedences(q);
             FirstGreatest<Resource<V>>(Select(q, HasType(types)), if signed then Signed(prec) else prec, r)
    ensures r in q && r.typeHandle in types && exists i :: FirstOfTypes(q, types, signed, i) && q[i] == r
  {
    hide FirstGreatest, Select, AsSigned;
    var key := if signed then Signed(Precedences(q)) else Precedences(q);
    var i := SelectedGreatest(q, HasType(types), key, r);
    forall j | 0 <= j < |q|
      ensures key[q[j]] == if signed then AsSigned(q[j].precedence) else q[j].precedence
    {
      assert q[j] in q;
    }
    assert FirstOfTypes(q, types, signed, i);
  }

  lemma NoneOfTypes<V>(q: seq<Resource<V>>, types: set<TypeHandle>)
    requires Select(q, HasType(types)) == []
    ensures forall r :: r in q ==> r.typeHandle !in types
  {
    forall r | r in q
      ensures r.typeHandle !in types
    {
      SelectCount(q, HasType(types), r);
    }
  }

  /** The untyped selector. */
  method GetHighestPrecedence<V>(q: seq<Resource<V>>) returns (rsrc: Resource?<V>)
    ensures if q == [] then rsrc == null else rsrc != null && FirstGreatest<Resource<V>>(q, Precedences(q), rsrc)
  {
    if |q| == 0 {
      return null;
    }
    ghost var key := Precedences(q);
    rsrc := q[0];
    var prec := rsrc.precedence;
    FirstGreatestOne(q[0], key);
    assert q[..1] == [q[0]];
    for i := 1 to |q|
      invariant rsrc != null && rsrc in q && prec == rsrc.precedence
      invariant FirstGreatest<Resource<V>>(q[..i], key, rsrc)
    {
      var r := q[i];
      FirstGreatestLast<Resource<V>>(q[..i], key, rsrc, r);
      assert q[..i + 1] == q[..i] + [r];
      if r.precedence > prec {
        rsrc := r;
        prec := r.precedence;
      }
    }
    assert q[..|q|] == q;
  }

  /** The selector of one type: null just when the queue holds none of that type. */
  method GetHighestPrecedenceOf<V>(q: seq<Resource<V>>, h: TypeHandle) returns (rsrc: Resource?<V>)
    ensures var typed := Select(q, HasType({h}));
            if typed == [] then rsrc == null else rsrc != null && FirstGreatest<Resource<V>>(typed, Precedences(q), rsrc)
    ensures if rsrc == null then forall r :: r in q ==> r.typeHandle != h
            else exists i :: FirstOfTypes(q, {h}, false, i) && q[i] == rsrc
  {
    hide Select, FirstGreatest, FirstOfTypes;
    rsrc := null;
    SelectNone(q[..0], HasType({h}));
    if |q| == 0 {
      assert q[..0] == q;
      return;
    }
    var first := 0;
    while first < |q|
      invariant first <= |q| && rsrc == null && Select(q[..first], HasType({h})) == []
    {
      assert q[..first + 1] == q[..first] + [q[first]];
      SelectLast(q[..first], q[first], HasType({h}));
      rsrc := if q[first].typeHandle == h then q[first] else null;
      if rsrc != null {
        break;
      }
      first := first + 1;
    }
    if rsrc == null {
      assert q[..first] == q;
      NoneOfTypes(q, {h});
      return;
    }
    ghost var key := Precedences(q);
    var prec := rsrc.precedence;
    FirstGreatestOne(q[first], key);
    assert Select(q[..first + 1], HasType({h})) == [q[first]];
    for i := first + 1 to |q|
      invariant rsrc != null && rsrc in q && prec == rsrc.precedence
      invariant Select(q[..i], HasType({h})) != []
      invariant FirstGreatest<Resource<V>>(Select(q[..i], HasType({h})), key, rsrc)
    {
      assert q[..i + 1] == q[..i] + [q[i]];
      SelectLast(q[..i], q[i], HasType({h}));
      var r := if q[i].typeHandle == h then q[i] else null;
      if r != null {
        FirstGreatestLast<Resource<V>>(Select(q[..i], HasType({h})), key, rsrc, r);
        if r.precedence > prec {
          rsrc := r;
          prec := r.precedence;
        }
      }
    }
    assert q[..|q|] == q;
    SelectedOfTypes<V>(q, {h}, false, rsrc);
  }
}
