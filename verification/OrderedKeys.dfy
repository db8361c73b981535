/** The order in which std::map visits its string keys. */
module OrderedKeys {

  /** Lexicographic order by character code. */
  predicate Before(a: string, b: string) {
    if b == "" then false
    else if a == "" then true
    else a[0] < b[0] || (a[0] == b[0] && Before(a[1..], b[1..]))
  }

  /** At the first difference the first string has the smaller character, or it ends there. */
  lemma {:induction false} BeforeExact(a: string, b: string)
    ensures Before(a, b) <==> exists n :: Parted(a, b, n)
  {
    if a != "" && b != "" && a[0] == b[0] {
      BeforeExact(a[1..], b[1..]);
      if n :| Parted(a[1..], b[1..], n) {
        assert a == [a[0]] + a[1..] && b == [b[0]] + b[1..];
        assert Parted(a, b, n + 1);
      }
      if n :| Parted(a, b, n) {
        assert a[1..][..n - 1] == a[..n][1..] && b[1..][..n - 1] == b[..n][1..];
        assert Parted(a[1..], b[1..], n - 1);
      }
    } else if Before(a, b) {
      assert Parted(a, b, 0);
    }
  }

  ghost predicate Parted(a: string, b: string, n: int) {
    0 <= n <= |a| && n < |b| && a[..n] == b[..n] && (n == |a| || a[n] < b[n])
  }

  lemma {:induction false} BeforeTotal(a: string, b: string)
    ensures a == b || Before(a, b) || Before(b, a)
  {
    if a != "" && b != "" && a[0] == b[0] {
      BeforeTotal(a[1..], b[1..]);
      assert a == [a[0]] + a[1..] && b == [b[0]] + b[1..];
    }
  }

  lemma {:induction false} BeforeTransitive(a: string, b: string, c: string)
    requires Before(a, b) && Before(b, c)
    ensures Before(a, c)
  {
    if a != "" && a[0] == b[0] == c[0] {
      BeforeTransitive(a[1..], b[1..], c[1..]);
    }
  }

  lemma {:induction false} BeforeIrreflexive(a: string)
    ensures !Before(a, a)
  {
    if a != "" {
      BeforeIrreflexive(a[1..]);
    }
  }

  lemma {:induction false} FirstExists(keys: set<string>) returns (k: string)
    requires keys != {}
    ensures k in keys && forall j :: j in keys && j != k ==> Before(k, j)
  {
    var x :| x in keys;
    var rest := keys - {x};
    if rest == {} {
      k := x;
      assert keys == {x};
    } else {
      var y := FirstExists(rest);
      BeforeTotal(x, y);
      k := if Before(x, y) then x else y;
      forall j | j in keys && j != k
        ensures Before(k, j)
      {
        if k == x && j != y {
          BeforeTransitive(x, y, j);
        }
      }
    }
  }

  /** `order` lists each of `keys` once, in map order. */
  ghost predicate InOrder(order: seq<string>, keys: set<string>) {
    && (forall k :: k in order <==> k in keys)
    && (forall i, j :: 0 <= i < j < |order| ==> Before(order[i], order[j]))
  }

  lemma DistinctInOrder(order: seq<string>, keys: set<string>, i: nat, j: nat)
    requires InOrder(order, keys) && i < j < |order|
    ensures order[i] != order[j]
  {
    BeforeIrreflexive(order[i]);
  }

  method KeysInOrder(keys: set<string>) returns (order: seq<string>)
    ensures InOrder(order, keys)
  {
    order := [];
    var rest := keys;
    while rest != {}
      invariant rest <= keys
      invariant forall k :: k in order <==> k in keys - rest
      invariant forall i, j :: 0 <= i < j < |order| ==> Before(order[i], order[j])
      invariant forall i, k :: 0 <= i < |order| && k in rest ==> Before(order[i], k)
    {
      ghost var first := FirstExists(rest);
      var k :| k in rest && forall j :: j in rest && j != k ==> Before(k, j);
      order := order + [k];
      rest := rest - {k};
    }
  }
}
