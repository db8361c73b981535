/** How an agent finds out during build whether it is active. */
module Agent {
  import opened Options
  import opened Regex
  import opened ResourcePool
  import opened Precedence
  import opened Sequences

  datatype Value = Number(n: int) | Text(s: string)

  // The six types an agent accepts for the setting.
  const MODE_TYPE: TypeHandle := 0
  const INTEGRAL_TYPE: TypeHandle := 1
  const BITSTREAM_TYPE: TypeHandle := 2
  const INT_TYPE: TypeHandle := 3
  const UNSIGNED_TYPE: TypeHandle := 4
  const STRING_TYPE: TypeHandle := 5

  const ACCEPTABLE: set<TypeHandle> := {MODE_TYPE, INTEGRAL_TYPE, BITSTREAM_TYPE, INT_TYPE, UNSIGNED_TYPE, STRING_TYPE}

  /** Resources of the string type hold text, those of the other acceptable types numbers. */
  ghost predicate WellTyped(r: Resource<Value>)
    reads r
  {
    r.typeHandle in ACCEPTABLE ==> if r.typeHandle == STRING_TYPE then r.val.Text? else r.val.Number?
  }

  /** sc_uint and the wide bit stream convert to int by their low 32 bits. */
  function ToInt(n: int): (i: int)
    ensures -0x8000_0000 <= i < 0x8000_0000 && (i - n) % 0x1_0000_0000 == 0
  {
    AsSigned(n % (2 * HALF))
  }

  /** What the mode becomes on account of a resource: text is read but asks for nothing, wide integers count modulo
      2^32, as signed numbers. */
  ghost predicate Follows(mode: int, r: Resource<Value>, before: int)
    reads r
  {
    if r.typeHandle == STRING_TYPE then mode == before
    else if r.typeHandle in {INTEGRAL_TYPE, BITSTREAM_TYPE}
         then r.val.Number? && -0x8000_0000 <= mode < 0x8000_0000 && (mode - r.val.n) % 0x1_0000_0000 == 0
         else r.val == Number(mode)
  }

  lemma SortedTyped(pool: ResourcePool<Value>, s: seq<Resource<Value>>, q: seq<Resource<Value>>, scope: string)
    requires q == Visible(pool.engine, Queue(pool.rtab, "is_active"), scope, None)
    requires StableDescending(s, q, Signed(Precedences(q)))
    requires forall r :: r in Queue(pool.rtab, "is_active") ==> WellTyped(r)
    ensures forall r :: r in s ==> WellTyped(r)
  {
    hide Visible, StableDescending;
    SortedPermutes(s, q, Signed(Precedences(q)));
    forall r | r in s
      ensures WellTyped(r)
    {
      assert r in multiset(s);
      VisibleWithin(pool.engine, Queue(pool.rtab, "is_active"), scope, None, r);
    }
  }

  lemma SamePrecedences(q: seq<Resource<Value>>, prec: map<Resource<Value>, int>)
    requires prec.Keys == (set r | r in q) && forall r :: r in q ==> prec[r] == AsSigned(r.precedence)
    ensures prec == Signed(Precedences(q))
  {
  }

  class Agent {
    const fullName: string
    var isActive: int

    constructor (fullName: string)
      ensures this.fullName == fullName && isActive == 1
    {
      this.fullName, isActive := fullName, 1;
    }

    /** Takes the mode from one resource if its type is acceptable. */
    method TakeFrom(r: Resource<Value>) returns (taken: bool)
      requires WellTyped(r)
      modifies `isActive
      ensures taken == (r.typeHandle in ACCEPTABLE)
      ensures if taken then Follows(isActive, r, old(isActive)) else isActive == old(isActive)
    {
      if r.typeHandle == MODE_TYPE {
        isActive := r.val.n;
      } else if r.typeHandle == INTEGRAL_TYPE {
        isActive := ToInt(r.val.n);
      } else if r.typeHandle == BITSTREAM_TYPE {
        isActive := ToInt(r.val.n);
      } else if r.typeHandle == INT_TYPE {
        isActive := r.val.n;
      } else if r.typeHandle == UNSIGNED_TYPE {
        isActive := r.val.n;
      } else if r.typeHandle == STRING_TYPE {
        var text := r.Read();
      } else {
        return false;
      }
      return true;
    }

    /** Takes the mode from the first acceptable resource after sorting, which is the first of those whose
        precedence, as a signed number, is greatest; without one the mode stays. */
    method BuildPhase(pool: ResourcePool<Value>)
      requires pool.Valid() && forall r :: r in Queue(pool.rtab, "is_active") ==> WellTyped(r)
      modifies `isActive
      ensures var q := Visible(pool.engine, Queue(pool.rtab, "is_active"), fullName, None);
              if forall r :: r in q ==> r.typeHandle !in ACCEPTABLE then isActive == old(isActive)
              else exists i :: FirstOfTypes(q, ACCEPTABLE, true, i) && Follows(isActive, q[i], old(isActive))
    {
      hide Follows, Accepts, Visible, FirstGreatest, FirstOfTypes, StableDescending, Select, Precedences, Signed;
      var q := pool.LookupName(fullName, "is_active", None);
      var rq := SortByPrecedence(q);
      ghost var prec := Signed(Precedences(q));
      PrecedencesOf(q);
      SortedTyped(pool, rq, q, fullName);
      SelectNone(rq[..0], HasType(ACCEPTABLE));
      var i := 0;
      while i < |rq|
        invariant 0 <= i <= |rq| && Select(rq[..i], HasType(ACCEPTABLE)) == []
        invariant forall r :: r in q ==> prec[r] == AsSigned(r.precedence)
        invariant isActive == old(isActive) && forall r :: r in rq ==> WellTyped(r)
      {
        assert rq[..i + 1] == rq[..i] + [rq[i]];
        SelectLast(rq[..i], rq[i], HasType(ACCEPTABLE));
        var r := rq[i];
        assert WellTyped(r);
        var taken := TakeFrom(r);
        if taken {
          break;
        }
        i := i + 1;
      }
      if i < |rq| {
        Chosen(rq, q, prec, HasType(ACCEPTABLE), i);
        SamePrecedences(q, prec);
        SelectedOfTypes<Value>(q, ACCEPTABLE, true, rq[i]);
      } else {
        assert rq[..i] == rq;
        NoneChosen(rq, q, prec, HasType(ACCEPTABLE));
        NoneOfTypes(q, ACCEPTABLE);
      }
    }
  }
}
