/** The queue between phase processes: a FIFO, bounded or not, whose blocking calls wait for two events.

    Processes are cooperative: what a call does between two waits is one step. A notification is immediate while the
    simulation runs and otherwise left pending until the kernel delivers it. */
module PhaseQueue {
  import opened Options

  type ProcessId = nat

  datatype Want<+T> = Putting(m: T) | Getting | Peeking

  /** A ready process will evaluate the condition of its wait loop when it is next run. */
  datatype Process<+T> = Idle | Ready(want: Want<T>) | Blocked(want: Want<T>)

  /** `put` and `got` record what has entered and left the queue so far. */
  datatype State<T> = State(bound: nat, elements: seq<T>, contentPending: bool, spacePending: bool,
                            procs: map<ProcessId, Process<T>>, put: seq<T>, got: seq<T>)
  {
    predicate Room() {
      bound == 0 || |elements| < bound
    }
  }

  /** Whether some producer, or some consumer, is blocked. */
  predicate AnyBlocked<T>(procs: map<ProcessId, Process<T>>, producers: bool) {
    exists p :: p in procs && procs[p].Blocked? && procs[p].want.Putting? == producers
  }

  // ----- one step

  /** Everyone blocked on one of the two events becomes ready. */
  function Awake<T>(procs: map<ProcessId, Process<T>>, producers: bool): map<ProcessId, Process<T>> {
    map p | p in procs ::
      if procs[p].Blocked? && procs[p].want.Putting? == producers then Ready(procs[p].want) else procs[p]
  }

  /** An immediate notification also cancels a pending one. */
  function NotifyContent<T>(s: State<T>, running: bool): State<T> {
    if running then s.(contentPending := false, procs := Awake(s.procs, false)) else s.(contentPending := true)
  }

  function NotifySpace<T>(s: State<T>, running: bool): State<T> {
    if running then s.(spacePending := false, procs := Awake(s.procs, true)) else s.(spacePending := true)
  }

  function Pushed<T>(s: State<T>, m: T, running: bool): State<T> {
    NotifyContent(s.(elements := s.elements + [m], put := s.put + [m]), running)
  }

  function Popped<T>(s: State<T>, running: bool): State<T>
    requires s.elements != []
  {
    NotifySpace(s.(elements := s.elements[1..], got := s.got + [s.elements[0]]), running)
  }

  /** From the test of the wait loop to the next wait or to the end of the call. */
  function Segment<T>(s: State<T>, p: ProcessId, want: Want<T>, running: bool): State<T> {
    var blocked, done := s.(procs := s.procs[p := Blocked(want)]), s.(procs := s.procs[p := Idle]);
    match want
    case Putting(m) => if s.Room() then Pushed(done, m, running) else blocked
    case Getting => if s.elements != [] then Popped(done, running) else blocked
    case Peeking => if s.elements != [] then done else blocked
  }

  datatype Action<+T> =
    | Call(p: ProcessId, want: Want<T>, running: bool)
    | Resume(p: ProcessId, running: bool)
    | TryPut(m: T, running: bool)
    | TryGet(running: bool)
    | DeliverContent
    | DeliverSpace

  predicate Enabled<T>(s: State<T>, a: Action<T>) {
    match a
    case Call(p, _, _) => p !in s.procs || s.procs[p].Idle?
    case Resume(p, _) => p in s.procs && s.procs[p].Ready?
    case TryPut(_, _) => true
    case TryGet(_) => true
    case DeliverContent => s.contentPending
    case DeliverSpace => s.spacePending
  }

  function Next<T>(s: State<T>, a: Action<T>): State<T>
    requires Enabled(s, a)
  {
    match a
    case Call(p, want, running) => Segment(s, p, want, running)
    case Resume(p, running) => Segment(s, p, s.procs[p].want, running)
    case TryPut(m, running) => if s.Room() then Pushed(s, m, running) else s
    case TryGet(running) => if s.elements != [] then Popped(s, running) else s
    case DeliverContent => NotifyContent(s, true)
    case DeliverSpace => NotifySpace(s, true)
  }

  /** From `before` to `after` an immediate notification makes ready whoever is blocked on its event, to test the
      same condition again; nobody else is touched, and a notification left pending touches no one. */
  ghost predicate Roused<T>(before: map<ProcessId, Process<T>>, after: map<ProcessId, Process<T>>, running: bool,
                            producers: bool)
  {
    && after.Keys == before.Keys
    && forall q :: q in before ==>
         if running && before[q].Blocked? && before[q].want.Putting? == producers then after[q] == Ready(before[q].want)
         else after[q] == before[q]
  }

  // ----- the queue itself

  class PhaseQueue<T> {
    const queueSize: nat
    var elements: seq<T>
    var contentPending: bool
    var spacePending: bool
    var procs: map<ProcessId, Process<T>>
    ghost var put: seq<T>
    ghost var got: seq<T>

    ghost function Current(): State<T>
      reads this
    {
      State(queueSize, elements, contentPending, spacePending, procs, put, got)
    }

    /** The bound is stored as an unsigned int. */
    constructor (bound: int)
      ensures Current() == Initial(bound % 0x1_0000_0000)
      ensures queueSize == bound % 0x1_0000_0000 && elements == [] && !contentPending && !spacePending && procs == map[]
    {
      queueSize, elements, contentPending, spacePending, procs := bound % 0x1_0000_0000, [], false, false, map[];
      put, got := [], [];
    }

    method NotifyForContent(running: bool)
      modifies `contentPending, `procs
      ensures Current() == NotifyContent(old(Current()), running)
      ensures contentPending == !running && Roused(old(procs), procs, running, false)
    {
      if !running {
        contentPending := true;
      } else {
        contentPending, procs := false, Awake(procs, false);
      }
    }

    method NotifyNotFull(running: bool)
      modifies `spacePending, `procs
      ensures Current() == NotifySpace(old(Current()), running)
      ensures spacePending == !running && Roused(old(procs), procs, running, true)
    {
      if !running {
        spacePending := true;
      } else {
        spacePending, procs := false, Awake(procs, true);
      }
    }

    /** One pass through put: from the test of its loop to the wait, or to the end if there is room. */
    method Put(p: ProcessId, m: T, running: bool) returns (done: bool)
      modifies this
      ensures Current() == Segment(old(Current()), p, Putting(m), running)
      ensures done == (queueSize == 0 || |old(elements)| < queueSize)
      ensures done ==>
                && elements == old(elements) + [m] && Roused(old(procs)[p := Idle], procs, running, false)
                && contentPending == !running && spacePending == old(spacePending)
      ensures !done ==>
                && elements == old(elements) && procs == old(procs)[p := Blocked(Putting(m))]
                && contentPending == old(contentPending) && spacePending == old(spacePending)
    {
      if queueSize != 0 && |elements| >= queueSize {
        procs := procs[p := Blocked(Putting(m))];
        return false;
      }
      procs := procs[p := Idle];
      elements, put := elements + [m], put + [m];
      NotifyForContent(running);
      return true;
    }

    method TryPut(m: T, running: bool) returns (r: int)
      modifies this
      ensures Current() == Next(old(Current()), Action.TryPut(m, running))
      ensures if queueSize == 0 || |old(elements)| < queueSize
              then r == 1 && elements == old(elements) + [m] && contentPending == !running
                   && Roused(old(procs), procs, running, false)
              else r == 0 && Current() == old(Current())
    {
      if queueSize != 0 && |elements| >= queueSize {
        return 0;
      }
      elements, put := elements + [m], put + [m];
      NotifyForContent(running);
      return 1;
    }

    /** One pass through get; what it returns is the oldest element. */
    method Get(p: ProcessId, running: bool) returns (m: Option<T>)
      modifies this
      ensures Current() == Segment(old(Current()), p, Getting, running)
      ensures old(elements) != [] ==>
                && m.Some? && [m.value] + elements == old(elements) && Roused(old(procs)[p := Idle], procs, running, true)
                && spacePending == !running && contentPending == old(contentPending)
      ensures old(elements) == [] ==>
                && m == None && elements == [] && procs == old(procs)[p := Blocked(Getting)]
                && contentPending == old(contentPending) && spacePending == old(spacePending)
    {
      if |elements| == 0 {
        procs := procs[p := Blocked(Getting)];
        return None;
      }
      procs := procs[p := Idle];
      m := Some(elements[0]);
      elements, got := elements[1..], got + [elements[0]];
      NotifyNotFull(running);
    }

    method TryGet(running: bool) returns (m: Option<T>)
      modifies this
      ensures Current() == Next(old(Current()), Action.TryGet(running))
      ensures if old(elements) != []
              then m.Some? && [m.value] + elements == old(elements) && spacePending == !running
                   && Roused(old(procs), procs, running, true)
              else m == None && Current() == old(Current())
    {
      if |elements| == 0 {
        return None;
      }
      m := Some(elements[0]);
      elements, got := elements[1..], got + [elements[0]];
      NotifyNotFull(running);
    }

    /** One pass through peek, which notifies nobody. */
    method Peek(p: ProcessId) returns (m: Option<T>)
      modifies `procs
      ensures forall running :: Current() == Segment(old(Current()), p, Peeking, running)
      ensures if elements == [] then m == None && procs == old(procs)[p := Blocked(Peeking)]
              else m == Some(elements[0]) && procs == old(procs)[p := Idle]
    {
      if |elements| == 0 {
        procs := procs[p := Blocked(Peeking)];
        return None;
      }
      procs := procs[p := Idle];
      m := Some(elements[0]);
    }

    method Empty(running: bool)
      modifies this
      ensures Current() == Emptied(old(Current()), running)
      ensures elements == [] && contentPending == !running && spacePending == old(spacePending)
      ensures Roused(old(procs), procs, running, false)
    {
      while |elements| != 0
        invariant got + elements == old(got + elements) && put == old(put) && procs == old(procs)
        invariant contentPending == old(contentPending) && spacePending == old(spacePending)
      {
        elements, got := elements[1..], got + [elements[0]];
      }
      NotifyForContent(running);
    }

    /** A process made ready runs its call on from the wait. */
    method Resume(p: ProcessId, running: bool)
      requires p in procs && procs[p].Ready?
      modifies this
      ensures Current() == Next(old(Current()), Action.Resume(p, running))
    {
      match procs[p].want
      case Putting(m) => var done := Put(p, m, running);
      case Getting => var m := Get(p, running);
      case Peeking => var m := Peek(p);
    }
  }

  // ----- every run

  function Initial<T>(bound: nat): State<T> {
    State(bound, [], false, false, map[], [], [])
  }

  /** The states of a run that starts empty and takes enabled steps in any order. */
  ghost predicate IsRun<T>(bound: nat, run: seq<State<T>>, steps: seq<Action<T>>) {
    && |run| == |steps| + 1 && run[0] == Initial(bound)
    && forall i :: 0 <= i < |steps| ==> Enabled(run[i], steps[i]) && run[i + 1] == Next(run[i], steps[i])
  }

  /** Bounded, first in first out, and nobody sleeps through what it waits for. */
  ghost predicate Sound<T>(s: State<T>) {
    && (s.bound == 0 || |s.elements| <= s.bound)
    && s.put == s.got + s.elements
    && (AnyBlocked(s.procs, true) ==> !s.Room() || s.spacePending)
    && (AnyBlocked(s.procs, false) ==> s.elements == [] || s.contentPending)
  }

  lemma AwakeBlocked<T>(procs: map<ProcessId, Process<T>>, producers: bool)
    ensures !AnyBlocked(Awake(procs, producers), producers)
    ensures AnyBlocked(Awake(procs, producers), !producers) ==> AnyBlocked(procs, !producers)
  {
  }

  lemma ChangedBlocked<T>(procs: map<ProcessId, Process<T>>, p: ProcessId, x: Process<T>, producers: bool)
    ensures AnyBlocked(procs[p := x], producers) ==>
              AnyBlocked(procs, producers) || (x.Blocked? && x.want.Putting? == producers)
  {
  }

  lemma PushedSound<T>(s: State<T>, m: T, running: bool)
    requires Sound(s) && s.Room()
    ensures Sound(Pushed(s, m, running))
  {
    hide AnyBlocked, Awake;
    AwakeBlocked(s.procs, false);
    assert s.put + [m] == s.got + (s.elements + [m]);
  }

  lemma PoppedSound<T>(s: State<T>, running: bool)
    requires Sound(s) && s.elements != []
    ensures Sound(Popped(s, running))
  {
    hide AnyBlocked, Awake;
    AwakeBlocked(s.procs, true);
    assert s.put == (s.got + [s.elements[0]]) + s.elements[1..];
  }

  lemma SegmentSound<T>(s: State<T>, p: ProcessId, want: Want<T>, running: bool)
    requires Sound(s)
    ensures Sound(Segment(s, p, want, running))
  {
    hide AnyBlocked, Pushed, Popped;
    var done := s.(procs := s.procs[p := Idle]);
    ChangedBlocked(s.procs, p, Idle, true);
    ChangedBlocked(s.procs, p, Idle, false);
    ChangedBlocked(s.procs, p, Blocked(want), true);
    ChangedBlocked(s.procs, p, Blocked(want), false);
    if want.Putting? && s.Room() {
      PushedSound(done, want.m, running);
    } else if want.Getting? && s.elements != [] {
      PoppedSound(done, running);
    }
  }

  lemma NextSound<T>(s: State<T>, a: Action<T>)
    requires Sound(s) && Enabled(s, a)
    ensures Sound(Next(s, a)) && Next(s, a).bound == s.bound
  {
    hide AnyBlocked, Awake;
    match a
    case Call(p, want, running) => SegmentSound(s, p, want, running);
    case Resume(p, running) => SegmentSound(s, p, s.procs[p].want, running);
    case TryPut(m, running) => if s.Room() { PushedSound(s, m, running); }
    case TryGet(running) => if s.elements != [] { PoppedSound(s, running); }
    case DeliverContent => AwakeBlocked(s.procs, false);
    case DeliverSpace => AwakeBlocked(s.procs, true);
  }

  lemma InitialSound<T>(bound: nat)
    ensures Sound(Initial<T>(bound))
  {
  }

  /** All states of all runs. */
  lemma {:induction false} RunsAreSound<T>(bound: nat, run: seq<State<T>>, steps: seq<Action<T>>, i: nat)
    requires IsRun(bound, run, steps) && i < |run|
    ensures Sound(run[i]) && run[i].bound == bound
  {
    hide Sound, Next, Enabled;
    InitialSound<T>(bound);
    if i > 0 {
      RunsAreSound(bound, run, steps, i - 1);
      NextSound(run[i - 1], steps[i - 1]);
    }
  }

  /** Without pending notifications producers and consumers are never blocked at once. */
  lemma NotBothBlocked<T>(bound: nat, run: seq<State<T>>, steps: seq<Action<T>>, i: nat)
    requires IsRun(bound, run, steps) && i < |run| && !run[i].contentPending && !run[i].spacePending
    ensures !(AnyBlocked(run[i].procs, true) && AnyBlocked(run[i].procs, false))
  {
    RunsAreSound(bound, run, steps, i);
  }

  /** Items leave in the order they entered. */
  lemma FirstInFirstOut<T>(bound: nat, run: seq<State<T>>, steps: seq<Action<T>>, i: nat)
    requires IsRun(bound, run, steps) && i < |run|
    ensures run[i].got <= run[i].put && |run[i].put| == |run[i].got| + |run[i].elements|
  {
    RunsAreSound(bound, run, steps, i);
  }

  // ----- what goes in comes out

  /** The wait that process `p` entered by its latest call among the first `n` steps. */
  function LatestWant<T>(steps: seq<Action<T>>, n: nat, p: ProcessId): Option<Want<T>>
    requires n <= |steps|
  {
    if n == 0 then None
    else
      match steps[n - 1]
      case Call(c, want, _) => if c == p then Some(want) else LatestWant(steps, n - 1, p)
      case _ => LatestWant(steps, n - 1, p)
  }

  /** What step `n` is about: the wait of the call it starts or runs on, or a single attempt. */
  function Attempted<T>(steps: seq<Action<T>>, n: nat): Option<Want<T>>
    requires n < |steps|
  {
    match steps[n]
    case Call(_, want, _) => Some(want)
    case Resume(p, _) => LatestWant(steps, n, p)
    case TryPut(m, _) => Some(Putting(m))
    case TryGet(_) => Some(Getting)
    case _ => None
  }

  /** The items that the first `n` steps hand to the queue: one for each put or try_put that finds room. */
  function Entered<T>(run: seq<State<T>>, steps: seq<Action<T>>, n: nat): seq<T>
    requires n <= |steps| < |run|
  {
    if n == 0 then []
    else
      var s := run[n - 1];
      Entered(run, steps, n - 1) +
      match Attempted(steps, n - 1)
      case Some(Putting(m)) => if s.bound == 0 || |s.elements| < s.bound then [m] else []
      case _ => []
  }

  /** The items that they take out of it: the oldest, for each get or try_get that finds one. */
  function Left<T>(run: seq<State<T>>, steps: seq<Action<T>>, n: nat): seq<T>
    requires n <= |steps| < |run|
  {
    if n == 0 then []
    else
      var s := run[n - 1];
      Left(run, steps, n - 1) +
      match Attempted(steps, n - 1)
      case Some(Getting) => if s.elements != [] then [s.elements[0]] else []
      case _ => []
  }

  /** Woken or not, the same call. */
  ghost predicate SameCall<T>(x: Process<T>, y: Process<T>) {
    && (y.Idle? <==> x.Idle?) && (!x.Idle? ==> y.want == x.want) && (x.Ready? ==> y.Ready?)
  }

  lemma AwakeSame<T>(procs: map<ProcessId, Process<T>>, producers: bool)
    ensures Awake(procs, producers).Keys == procs.Keys
    ensures forall p :: p in procs ==> SameCall(procs[p], Awake(procs, producers)[p])
  {
  }

  /** Whether a call waiting for `want` can go on. */
  predicate GoesOn<T>(s: State<T>, want: Want<T>) {
    if want.Putting? then s.bound == 0 || |s.elements| < s.bound else s.elements != []
  }

  lemma SegmentCalls<T>(s: State<T>, p: ProcessId, want: Want<T>, running: bool, q: ProcessId)
    ensures var after := Segment(s, p, want, running).procs;
            && p in after && after[p] == (if GoesOn(s, want) then Idle else Blocked(want))
            && (q != p ==> (q in after <==> q in s.procs) && (q in after ==> SameCall(s.procs[q], after[q])))
  {
    hide Awake;
    AwakeSame(s.procs[p := Idle], true);
    AwakeSame(s.procs[p := Idle], false);
  }

  /** What one step does to one unfinished call: it goes on waiting for the same thing, unless it is resumed and finds
      its condition to hold. */
  lemma CallKept<T>(s: State<T>, a: Action<T>, p: ProcessId)
    requires Enabled(s, a) && p in s.procs && !s.procs[p].Idle?
    ensures p in Next(s, a).procs
    ensures var resumed := a.Resume? && a.p == p;
            var after := Next(s, a).procs[p];
            && (after.Idle? <==> resumed && GoesOn(s, s.procs[p].want))
            && (!after.Idle? ==> after.want == s.procs[p].want)
            && (resumed && !after.Idle? ==> after.Blocked?)
            && (s.procs[p].Ready? && !resumed ==> after.Ready?)
  {
    hide Awake, Segment;
    AwakeSame(s.procs, true);
    AwakeSame(s.procs, false);
    match a
    case Call(q, want, running) => SegmentCalls(s, q, want, running, p);
    case Resume(q, running) => SegmentCalls(s, q, s.procs[q].want, running, p);
    case _ =>
  }

  /** A process without an unfinished call gets one only by calling and having to wait. */
  lemma CallStarts<T>(s: State<T>, a: Action<T>, p: ProcessId)
    requires Enabled(s, a) && (p in s.procs ==> s.procs[p].Idle?)
    ensures var after := Next(s, a).procs;
            p in after && !after[p].Idle? <==> a.Call? && a.p == p && !GoesOn(s, a.want)
    ensures a.Call? && a.p == p && !GoesOn(s, a.want) ==> Next(s, a).procs[p] == Blocked(a.want)
  {
    hide Awake, Segment;
    AwakeSame(s.procs, true);
    AwakeSame(s.procs, false);
    match a
    case Call(q, want, running) => SegmentCalls(s, q, want, running, p);
    case Resume(q, running) => SegmentCalls(s, q, s.procs[q].want, running, p);
    case _ =>
  }

  /** So an unfinished call waits for what was called for. */
  lemma {:induction false} WantKept<T>(bound: nat, run: seq<State<T>>, steps: seq<Action<T>>, n: nat, p: ProcessId)
    requires IsRun(bound, run, steps) && n <= |steps| && p in run[n].procs && !run[n].procs[p].Idle?
    ensures LatestWant(steps, n, p) == Some(run[n].procs[p].want)
  {
    hide Next;
    if n > 0 {
      var s, a := run[n - 1], steps[n - 1];
      if p in s.procs && !s.procs[p].Idle? {
        WantKept(bound, run, steps, n - 1, p);
        CallKept(s, a, p);
      } else {
        CallStarts(s, a, p);
      }
    }
  }

  /** What one step does to the items. */
  lemma NextItems<T>(s: State<T>, a: Action<T>, want: Option<Want<T>>)
    requires Enabled(s, a)
    requires match a
             case Call(_, w, _) => want == Some(w)
             case Resume(p, _) => want == Some(s.procs[p].want)
             case TryPut(m, _) => want == Some(Putting(m))
             case TryGet(_) => want == Some(Getting)
             case _ => want == None
    ensures Next(s, a).bound == s.bound
    ensures Next(s, a).elements == match want
            case Some(Putting(m)) => if s.bound == 0 || |s.elements| < s.bound then s.elements + [m] else s.elements
            case Some(Getting) => if s.elements != [] then s.elements[1..] else []
            case _ => s.elements
  {
  }

  /** In every run what has been handed over, read off the steps, is what has been taken out, in the same order,
      followed by what the queue holds. */
  lemma {:induction false} ItemsConserved<T>(bound: nat, run: seq<State<T>>, steps: seq<Action<T>>, n: nat)
    requires IsRun(bound, run, steps) && n <= |steps|
    ensures Entered(run, steps, n) == Left(run, steps, n) + run[n].elements
  {
    hide Next, Enabled, LatestWant, Attempted;
    if n > 0 {
      hide IsRun;
      ItemsConserved(bound, run, steps, n - 1);
      StepItems(bound, run, steps, n - 1);
      ItemsGrow(Entered(run, steps, n - 1), Left(run, steps, n - 1), run[n - 1].elements);
    } else {
      assert run[0] == Initial<T>(bound);
    }
  }

  /** What a step of a run does to the items, going by what it is about. */
  lemma StepItems<T>(bound: nat, run: seq<State<T>>, steps: seq<Action<T>>, n: nat)
    requires IsRun(bound, run, steps) && n < |steps|
    ensures run[n + 1].elements == match Attempted(steps, n)
            case Some(Putting(m)) =>
              if run[n].bound == 0 || |run[n].elements| < run[n].bound then run[n].elements + [m] else run[n].elements
            case Some(Getting) => if run[n].elements != [] then run[n].elements[1..] else []
            case _ => run[n].elements
  {
    hide Next, Enabled, LatestWant;
    var s, a := run[n], steps[n];
    if a.Resume? {
      ResumeReady(s, a);
      WantKept(bound, run, steps, n, a.p);
    }
    NextItems(s, a, Attempted(steps, n));
  }

  lemma ResumeReady<T>(s: State<T>, a: Action<T>)
    requires Enabled(s, a) && a.Resume?
    ensures a.p in s.procs && s.procs[a.p].Ready?
  {
  }

  lemma ItemsGrow<T>(entered: seq<T>, left: seq<T>, elements: seq<T>)
    requires entered == left + elements
    ensures forall m :: entered + [m] == left + (elements + [m])
    ensures elements != [] ==> entered == (left + [elements[0]]) + elements[1..]
  {
  }

  // ----- runs while the simulation runs

  predicate Immediate<T>(a: Action<T>) {
    match a
    case Call(_, _, running) => running
    case Resume(_, running) => running
    case TryPut(_, running) => running
    case TryGet(running) => running
    case _ => true
  }

  /** With immediate notification only, nothing is ever left pending. */
  lemma {:induction false} NeverPending<T>(bound: nat, run: seq<State<T>>, steps: seq<Action<T>>, i: nat)
    requires IsRun(bound, run, steps) && i < |run| && forall a :: a in steps ==> Immediate(a)
    ensures !run[i].contentPending && !run[i].spacePending
  {
    hide Awake;
    if i > 0 {
      NeverPending(bound, run, steps, i - 1);
      assert steps[i - 1] in steps;
    }
  }

  /** So in every such run a process blocked in put means a full queue, and one blocked in get or peek an empty
      queue: no wake-up is lost. */
  lemma NoWakeUpLost<T>(bound: nat, run: seq<State<T>>, steps: seq<Action<T>>, i: nat)
    requires IsRun(bound, run, steps) && i < |run| && forall a :: a in steps ==> Immediate(a)
    ensures AnyBlocked(run[i].procs, true) ==> !run[i].Room()
    ensures AnyBlocked(run[i].procs, false) ==> run[i].elements == []
  {
    RunsAreSound(bound, run, steps, i);
    NeverPending(bound, run, steps, i);
  }

  // ----- every schedule comes to rest

  function Waiting<T>(s: State<T>): set<ProcessId> {
    set p | p in s.procs && !s.procs[p].Idle?
  }

  function Readied<T>(s: State<T>): set<ProcessId> {
    set p | p in s.procs && s.procs[p].Ready?
  }

  function Pending<T>(s: State<T>): nat {
    (if s.contentPending then 1 else 0) + (if s.spacePending then 1 else 0)
  }

  ghost predicate CloserToRest<T>(t: State<T>, s: State<T>) {
    || |Waiting(t)| < |Waiting(s)|
    || (|Waiting(t)| == |Waiting(s)| && Pending(t) < Pending(s))
    || (|Waiting(t)| == |Waiting(s)| && Pending(t) == Pending(s) && |Readied(t)| < |Readied(s)|)
  }

  /** Resuming processes and delivering notifications cannot go on for ever without new calls: each step lowers the
      number of unfinished calls, or else that of pending notifications, or else that of ready processes. */
  lemma StepsToRest<T>(s: State<T>, a: Action<T>)
    requires Enabled(s, a) && (a.Resume? || a.DeliverContent? || a.DeliverSpace?)
    ensures CloserToRest(Next(s, a), s)
  {
    hide Waiting, Readied, Awake, Segment;
    match a
    case Resume(p, running) => ResumeToRest(s, p, running);
    case DeliverContent => AwakeWaiting(s, Next(s, a), false);
    case DeliverSpace => AwakeWaiting(s, Next(s, a), true);
  }

  lemma AwakeWaiting<T>(s: State<T>, t: State<T>, producers: bool)
    requires t.procs == Awake(s.procs, producers)
    ensures Waiting(t) == Waiting(s)
  {
  }

  lemma ResumeToRest<T>(s: State<T>, p: ProcessId, running: bool)
    requires p in s.procs && s.procs[p].Ready?
    ensures CloserToRest(Segment(s, p, s.procs[p].want, running), s)
  {
    hide Awake;
    var want := s.procs[p].want;
    var t := Segment(s, p, want, running);
    var done, blocked := s.(procs := s.procs[p := Idle]), s.(procs := s.procs[p := Blocked(want)]);
    if t == blocked {
      assert Waiting(t) == Waiting(s) && Readied(t) == Readied(s) - {p};
    } else {
      assert Waiting(done) == Waiting(s) - {p};
      AwakeWaiting(done, done.(procs := Awake(done.procs, true)), true);
      AwakeWaiting(done, done.(procs := Awake(done.procs, false)), false);
      assert Waiting(t) == Waiting(done);
    }
  }

  /** A number that each such step lowers, as long as no more than `most` calls are unfinished. */
  function Measure<T>(s: State<T>, most: nat): nat {
    3 * (|Waiting(s)| * (most + 1)) + Pending(s) * (most + 1) + |Readied(s)|
  }

  lemma ReadiedWait<T>(s: State<T>)
    ensures |Readied(s)| <= |Waiting(s)|
  {
    if Readied(s) != Waiting(s) {
      SmallerSet(Readied(s), Waiting(s));
    }
  }

  lemma SmallerSet(a: set<ProcessId>, b: set<ProcessId>)
    requires a < b
    ensures |a| < |b|
  {
    assert b == a + (b - a);
    assert |b - a| > 0;
  }

  lemma LessTimes(a: nat, b: nat, m: nat)
    requires a <= b
    ensures a * m <= b * m && (a < b ==> a * m + m <= b * m)
  {
    assert b * m == a * m + (b - a) * m;
    if a < b {
      assert (b - a) * m == m + (b - a - 1) * m;
    }
  }

  lemma CloserIsLess(w: nat, w': nat, p: nat, p': nat, r: nat, r': nat, most: nat)
    requires w <= most && p' <= 2 && r' <= w'
    requires w' < w || (w' == w && p' < p) || (w' == w && p' == p && r' < r)
    ensures 3 * (w' * (most + 1)) + p' * (most + 1) + r' < 3 * (w * (most + 1)) + p * (most + 1) + r
  {
    var m := most + 1;
    LessTimes(w', w, m);
    LessTimes(p', 2, m);
    if w' == w {
      LessTimes(p', p, m);
    }
  }

  lemma MeasureFalls<T>(s: State<T>, t: State<T>, most: nat)
    requires CloserToRest(t, s) && |Waiting(s)| <= most
    ensures |Waiting(t)| <= |Waiting(s)| && Measure(t, most) < Measure(s, most)
  {
    hide Waiting, Readied;
    ReadiedWait(t);
    CloserIsLess(|Waiting(s)|, |Waiting(t)|, Pending(s), Pending(t), |Readied(s)|, |Readied(t)|, most);
  }

  /** Steps from `run[0]` on that resume processes or deliver notifications, in any order. */
  ghost predicate IsSettling<T>(run: seq<State<T>>, steps: seq<Action<T>>) {
    && |run| == |steps| + 1
    && forall i :: 0 <= i < |steps| ==>
         && (steps[i].Resume? || steps[i].DeliverContent? || steps[i].DeliverSpace?)
         && Enabled(run[i], steps[i]) && run[i + 1] == Next(run[i], steps[i])
  }

  lemma {:induction false} SettlingBound<T>(run: seq<State<T>>, steps: seq<Action<T>>, i: nat)
    requires IsSettling(run, steps) && i < |run|
    ensures |Waiting(run[i])| <= |Waiting(run[0])|
    ensures i + Measure(run[i], |Waiting(run[0])|) <= Measure(run[0], |Waiting(run[0])|)
  {
    hide Waiting, Measure, Next, Enabled;
    if i > 0 {
      SettlingBound(run, steps, i - 1);
      StepsToRest(run[i - 1], steps[i - 1]);
      MeasureFalls(run[i - 1], run[i], |Waiting(run[0])|);
    }
  }

  /** Without new calls no schedule takes more steps than this many, given the number of unfinished calls. */
  lemma SettlesSoon<T>(run: seq<State<T>>, steps: seq<Action<T>>)
    requires IsSettling(run, steps)
    ensures var w := |Waiting(run[0])|; |steps| <= 3 * (w * (w + 1)) + 2 * (w + 1) + w
  {
    hide Waiting, Readied, IsSettling;
    assert |run| == |steps| + 1 by {
      SettlingLength(run, steps);
    }
    SettlingBound(run, steps, |steps|);
    ReadiedWait(run[0]);
    var w := |Waiting(run[0])|;
    LessTimes(Pending(run[0]), 2, w + 1);
  }

  lemma SettlingLength<T>(run: seq<State<T>>, steps: seq<Action<T>>)
    requires IsSettling(run, steps)
    ensures |run| == |steps| + 1
  {
  }

  /** At rest nobody who could go on is left: consumers wait only for an empty queue, producers for a full one. */
  lemma AtRest<T>(s: State<T>)
    requires Sound(s) && Readied(s) == {} && Pending(s) == 0
    ensures forall p :: p in Waiting(s) ==>
              s.procs[p].Blocked? && if s.procs[p].want.Putting? then !s.Room() else s.elements == []
  {
    forall p | p in Waiting(s)
      ensures s.procs[p].Blocked?
    {
      assert p !in Readied(s);
    }
  }

  // ----- emptying the queue

  function Emptied<T>(s: State<T>, running: bool): State<T> {
    NotifyContent(s.(elements := [], got := s.got + s.elements), running)
  }

  /** Emptying the queue notifies consumers only, so it loses the wake-up of a blocked producer: the state stays
      sound just when none is blocked or space was already pending. */
  lemma EmptyLosesWakeUp<T>(s: State<T>, running: bool)
    requires Sound(s)
    ensures Sound(Emptied(s, running)) <==> !AnyBlocked(s.procs, true) || s.spacePending
  {
    AwakeBlocked(s.procs, false);
    var t := Emptied(s, running);
    assert t.put == t.got + t.elements;
    if running && AnyBlocked(s.procs, true) {
      var p :| p in s.procs && s.procs[p].Blocked? && s.procs[p].want.Putting?;
      assert t.procs[p] == s.procs[p];
    }
  }

  /** A run that gets there: a queue of one is filled, a producer blocks, and emptying the queue leaves it blocked
      with room and nothing pending. */
  lemma WakeUpLost<T>(m: T) returns (run: seq<State<T>>, steps: seq<Action<T>>)
    ensures IsRun(1, run, steps)
    ensures var last := run[|run| - 1]; Sound(last) && !Sound(Emptied(last, true))
  {
    var s0: State<T> := Initial(1);
    var put, call := Action.TryPut(m, true), Call(0, Putting(m), true);
    var s1 := Next(s0, put);
    assert s1.elements == [m] && s1.procs == map[];
    var s2 := Next(s1, call);
    run, steps := [s0, s1, s2], [put, call];
    assert IsRun(1, run, steps);
    RunsAreSound(1, run, steps, 2);
    assert s2.procs[0] == Blocked(Putting(m));
    assert AnyBlocked(s2.procs, true);
    EmptyLosesWakeUp(s2, true);
  }
}
