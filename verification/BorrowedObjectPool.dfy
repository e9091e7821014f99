/** A bounded pool of reusable objects guarded by a mutex and a condition variable.
    The class holds the critical sections; the state machine interleaves them with
    sleeping, waking and timing-out threads. */
module BorrowedObjectPool {

  /** An object is identified by the order of its creation. */
  type Object = nat

  type Thread = nat

  // ---- the state behind the mutex ----

  datatype Shared = Shared(maxSize: nat, allocatedSize: nat, borrowedSize: int, objects: seq<Object>)

  /** The pool can make another object. */
  predicate HasRoom(p: Shared) {
    p.maxSize == 0 || p.allocatedSize < p.maxSize
  }

  function Popped(p: Shared): Shared
    requires p.objects != []
  {
    p.(objects := p.objects[..|p.objects| - 1], borrowedSize := p.borrowedSize + 1)
  }

  function Counted(p: Shared): Shared {
    p.(allocatedSize := p.allocatedSize + 1, borrowedSize := p.borrowedSize + 1)
  }

  function Returned(p: Shared, o: Object): Shared {
    p.(objects := p.objects + [o], borrowedSize := p.borrowedSize - 1)
  }

  /** The object returned last is the first to be borrowed again, and the pool is as before. */
  lemma ReturnedComesFirst(p: Shared, o: Object)
    ensures Returned(p, o).objects[|p.objects|] == o && |Returned(p, o).objects| == |p.objects| + 1
    ensures Popped(Returned(p, o)) == p
  {
    assert Returned(p, o).objects[..|p.objects|] == p.objects;
  }

  datatype Entry = Got(item: Object) | FactoryThrew | MustWait

  datatype Factory = Makes(item: Object) | Throws

  /** An idle object, else a new one if there is room, else the wait. */
  predicate Enters(p: Shared, func: Factory, p': Shared, r: Entry) {
    if p.objects != [] then p' == Popped(p) && r == Got(p.objects[|p.objects| - 1])
    else if HasRoom(p) then p' == Counted(p) && r == (if func.Makes? then Got(func.item) else FactoryThrew)
    else p' == p && r == MustWait
  }

  /** An idle object, else the wait goes on or its timeout is reported. */
  predicate Rechecks(p: Shared, p': Shared, r: Entry) {
    if p.objects != [] then p' == Popped(p) && r == Got(p.objects[|p.objects| - 1])
    else p' == p && r == MustWait
  }

  class Pool {
    const maxSize: nat
    var allocatedObjectsSize: nat
    var borrowedObjectsSize: int
    var objects: seq<Object>

    function State(): Shared
      reads this
    {
      Shared(maxSize, allocatedObjectsSize, borrowedObjectsSize, objects)
    }

    constructor (maxSize: nat)
      ensures State() == Shared(maxSize, 0, 0, [])
    {
      this.maxSize := maxSize;
      allocatedObjectsSize, borrowedObjectsSize, objects := 0, 0, [];
    }

    /** `borrowFromObjects`: the most recently returned object. */
    method BorrowFromObjects() returns (dst: Object)
      requires objects != []
      modifies this
      ensures State() == Popped(old(State())) && old(objects) == objects + [dst]
    {
      dst := objects[|objects| - 1];
      objects := objects[..|objects| - 1];
      borrowedObjectsSize := borrowedObjectsSize + 1;
    }

    /** `allocateObjectForBorrowing`: counts first, so a throwing factory leaves the counts raised. */
    method AllocateObjectForBorrowing(func: Factory) returns (r: Entry)
      modifies this
      ensures State() == Counted(old(State()))
      ensures r == if func.Makes? then Got(func.item) else FactoryThrew
    {
      allocatedObjectsSize := allocatedObjectsSize + 1;
      borrowedObjectsSize := borrowedObjectsSize + 1;
      r := if func.Makes? then Got(func.item) else FactoryThrew;
    }

    /** `borrowObject` and `tryBorrowObject` up to the wait. */
    method Enter(func: Factory) returns (r: Entry)
      modifies this
      ensures Enters(old(State()), func, State(), r)
      ensures r.MustWait? <==> old(objects) == [] && 0 < maxSize <= old(allocatedObjectsSize)
      ensures old(objects) != [] ==> r.Got? && old(objects) == objects + [r.item]
    {
      if objects != [] {
        var dest := BorrowFromObjects();
        return Got(dest);
      }
      var hasUnlimitedSize := maxSize == 0;
      if hasUnlimitedSize || allocatedObjectsSize < maxSize {
        r := AllocateObjectForBorrowing(func);
        return;
      }
      r := MustWait;
    }

    /** The wait predicate checked by a thread that holds the mutex again. */
    method Recheck() returns (r: Entry)
      modifies this
      ensures Rechecks(old(State()), State(), r)
    {
      if objects != [] {
        var dest := BorrowFromObjects();
        return Got(dest);
      }
      r := MustWait;
    }

    /** `returnObject`, up to the notification. */
    method ReturnObject(objectToReturn: Object)
      modifies this
      ensures State() == Returned(old(State()), objectToReturn)
    {
      objects := objects + [objectToReturn];
      borrowedObjectsSize := borrowedObjectsSize - 1;
    }
  }

  // ---- threads ----

  /** A waiting call: whether it has a timeout, and whether that has passed. */
  datatype Waiter = Waiter(timed: bool, expired: bool)

  /** `held` pairs threads with objects, `made` counts successful factory calls,
      `failed` those that threw. Sleeping threads are blocked in the condition
      variable; woken ones have left it and are about to take the mutex. */
  datatype System = System(
    pool: Shared,
    held: set<(Thread, Object)>,
    sleeping: map<Thread, Waiter>,
    woken: map<Thread, Waiter>,
    made: nat,
    failed: nat)

  datatype Step =
    | Borrow(t: Thread)                                   // an idle object is there
    | Allocate(t: Thread)                                 // room for a new object
    | Fail(t: Thread)                                     // room, but the factory throws
    | Sleep(t: Thread, timed: bool)                       // neither: wait
    | Wake(t: Thread)                                     // spurious wakeup
    | Expire(t: Thread)                                   // timeout
    | Resume(t: Thread)                                   // a woken thread checks the predicate
    | Return(t: Thread, o: Object, notified: Thread)      // notify_one picks any sleeper

  predicate Outside(s: System, t: Thread) {
    t !in s.sleeping && t !in s.woken
  }

  predicate Enabled(s: System, step: Step) {
    match step
    case Borrow(t) => Outside(s, t) && s.pool.objects != []
    case Allocate(t) => Outside(s, t) && s.pool.objects == [] && HasRoom(s.pool)
    case Fail(t) => Outside(s, t) && s.pool.objects == [] && HasRoom(s.pool)
    case Sleep(t, timed) => Outside(s, t) && s.pool.objects == [] && !HasRoom(s.pool)
    case Wake(t) => t in s.sleeping
    case Expire(t) => t in s.sleeping && s.sleeping[t].timed
    case Resume(t) => t in s.woken
    case Return(t, o, notified) =>
      Outside(s, t) && (t, o) in s.held && (s.sleeping == map[] || notified in s.sleeping)
  }

  function Last(s: seq<Object>): Object
    requires s != []
  {
    s[|s| - 1]
  }

  /** A sleeper leaves the condition variable. */
  function Awaken(s: System, t: Thread, expired: bool): System
    requires t in s.sleeping
  {
    s.(sleeping := s.sleeping - {t}, woken := s.woken[t := s.sleeping[t].(expired := expired)])
  }

  function Apply(s: System, step: Step): System
    requires Enabled(s, step)
  {
    match step
    case Borrow(t) => s.(pool := Popped(s.pool), held := s.held + {(t, Last(s.pool.objects))})
    case Allocate(t) => s.(pool := Counted(s.pool), held := s.held + {(t, s.made)}, made := s.made + 1)
    case Fail(t) => s.(pool := Counted(s.pool), failed := s.failed + 1)
    case Sleep(t, timed) => s.(sleeping := s.sleeping[t := Waiter(timed, false)])
    case Wake(t) => Awaken(s, t, false)
    case Expire(t) => Awaken(s, t, true)
    case Resume(t) =>
      var out := s.(woken := s.woken - {t});
      if s.pool.objects != [] then
        out.(pool := Popped(s.pool), held := s.held + {(t, Last(s.pool.objects))})
      else if s.woken[t].expired then out
      else out.(sleeping := s.sleeping[t := s.woken[t]])
    case Return(t, o, notified) =>
      var out := s.(pool := Returned(s.pool, o), held := s.held - {(t, o)});
      if s.sleeping == map[] then out else Awaken(out, notified, false)
  }

  function Initial(maxSize: nat): System {
    System(Shared(maxSize, 0, 0, []), {}, map[], map[], 0, 0)
  }

  ghost predicate Run(s: System, steps: seq<Step>)
    decreases |steps|
  {
    steps == [] || (Enabled(s, steps[0]) && Run(Apply(s, steps[0]), steps[1..]))
  }

  ghost function Final(s: System, steps: seq<Step>): System
    requires Run(s, steps)
    decreases |steps|
  {
    if steps == [] then s else Final(Apply(s, steps[0]), steps[1..])
  }

  // ---- the calls on the pool are the steps of the threads ----

  /** A call that enters the pool is one step of its thread; new objects are numbered in order. */
  lemma EnterIsStep(s: System, t: Thread, timed: bool, func: Factory, p': Shared, r: Entry) returns (step: Step)
    requires Outside(s, t) && Enters(s.pool, func, p', r) && (func.Makes? ==> func.item == s.made)
    ensures Enabled(s, step) && step.t == t && Apply(s, step).pool == p'
    ensures Apply(s, step).held == if r.Got? then s.held + {(t, r.item)} else s.held
    ensures (r.FactoryThrew? <==> step.Fail?) && (r.MustWait? <==> step == Sleep(t, timed))
  {
    if s.pool.objects != [] {
      step := Borrow(t);
    } else if HasRoom(s.pool) {
      step := if func.Makes? then Allocate(t) else Fail(t);
    } else {
      step := Sleep(t, timed);
    }
  }

  /** A woken thread that has the mutex again makes a step of its own; without an object it
      leaves if its timeout has passed and sleeps again otherwise. */
  lemma RecheckIsStep(s: System, t: Thread, p': Shared, r: Entry)
    requires t in s.woken && Rechecks(s.pool, p', r)
    ensures Enabled(s, Resume(t)) && Apply(s, Resume(t)).pool == p'
    ensures Apply(s, Resume(t)).held == if r.Got? then s.held + {(t, r.item)} else s.held
    ensures t in Apply(s, Resume(t)).sleeping <==> t in s.sleeping || (r.MustWait? && !s.woken[t].expired)
  {
  }

  /** A returned object and one notification, of any sleeper, are one step. */
  lemma ReturnIsStep(s: System, t: Thread, o: Object, notified: Thread)
    requires Outside(s, t) && (t, o) in s.held && (s.sleeping == map[] || notified in s.sleeping)
    ensures Enabled(s, Return(t, o, notified)) && Apply(s, Return(t, o, notified)).pool == Returned(s.pool, o)
    ensures Apply(s, Return(t, o, notified)).sleeping.Keys == s.sleeping.Keys - {notified}
  {
  }

  // ---- what every reachable state satisfies ----

  /** The counters: every allocated object is idle, held, or was never made. */
  ghost predicate Counts(p: Shared, holding: nat, failed: nat) {
    && p.allocatedSize == p.borrowedSize + |p.objects|
    && p.borrowedSize == holding + failed
    && (p.maxSize > 0 ==> p.allocatedSize <= p.maxSize)
  }

  /** No object is idle twice, held twice, or both; all are among those made. */
  ghost predicate Exclusive(objects: seq<Object>, held: set<(Thread, Object)>, made: nat) {
    && (forall i, j | 0 <= i < j < |objects| :: objects[i] != objects[j])
    && (forall h, h' | h in held && h' in held && h.1 == h'.1 :: h == h')
    && (forall h | h in held :: h.1 < made)
    && (forall h, i | h in held && 0 <= i < |objects| :: h.1 != objects[i])
    && (forall i | 0 <= i < |objects| :: objects[i] < made)
  }

  /** Sleepers exist only in a full pool, and every idle object has a woken thread coming for it. */
  ghost predicate Attended(s: System) {
    && s.sleeping.Keys !! s.woken.Keys
    && (s.sleeping != map[] || s.woken != map[] ==> !HasRoom(s.pool))
    && (s.sleeping != map[] ==> |s.woken| >= |s.pool.objects|)
  }

  ghost predicate Inv(s: System) {
    Counts(s.pool, |s.held|, s.failed) && Exclusive(s.pool.objects, s.held, s.made) && Attended(s)
  }

  lemma HeldRemoved(held: set<(Thread, Object)>, h: (Thread, Object))
    requires h in held
    ensures |held - {h}| == |held| - 1
  {
  }

  lemma HeldAdded(held: set<(Thread, Object)>, h: (Thread, Object))
    requires h !in held
    ensures |held + {h}| == |held| + 1
  {
  }

  lemma PopExclusive(objects: seq<Object>, held: set<(Thread, Object)>, made: nat, t: Thread)
    requires Exclusive(objects, held, made) && objects != []
    ensures Exclusive(objects[..|objects| - 1], held + {(t, Last(objects))}, made)
    ensures (t, Last(objects)) !in held
  {
  }

  lemma ReturnExclusive(objects: seq<Object>, held: set<(Thread, Object)>, made: nat, h: (Thread, Object))
    requires Exclusive(objects, held, made) && h in held
    ensures Exclusive(objects + [h.1], held - {h}, made)
  {
  }

  lemma MakeExclusive(objects: seq<Object>, held: set<(Thread, Object)>, made: nat, t: Thread)
    requires Exclusive(objects, held, made)
    ensures Exclusive(objects, held + {(t, made)}, made + 1)
    ensures (t, made) !in held
  {
  }

  lemma ExclusiveKept(s: System, step: Step)
    requires Inv(s) && Enabled(s, step)
    ensures var s' := Apply(s, step); Exclusive(s'.pool.objects, s'.held, s'.made)
  {
    hide Exclusive, Attended, Counts;
    match step
    case Borrow(t) =>
      PopExclusive(s.pool.objects, s.held, s.made, t);
    case Allocate(t) =>
      MakeExclusive(s.pool.objects, s.held, s.made, t);
    case Resume(t) =>
      if s.pool.objects != [] {
        PopExclusive(s.pool.objects, s.held, s.made, t);
      }
    case Return(t, o, notified) =>
      ReturnExclusive(s.pool.objects, s.held, s.made, (t, o));
    case _ =>
  }

  /** The three changes of the shared state, and what they do to the counts. */
  lemma CountChanges(p: Shared, holding: nat, failed: nat, o: Object)
    requires Counts(p, holding, failed)
    ensures p.objects != [] ==> Counts(Popped(p), holding + 1, failed)
    ensures HasRoom(p) ==> Counts(Counted(p), holding + 1, failed) && Counts(Counted(p), holding, failed + 1)
    ensures holding > 0 ==> Counts(Returned(p, o), holding - 1, failed)
  {
  }

  lemma TakenCounts(s: System, t: Thread)
    requires Inv(s)
    ensures s.pool.objects != [] ==>
              Counts(Popped(s.pool), |s.held + {(t, Last(s.pool.objects))}|, s.failed)
    ensures HasRoom(s.pool) ==> Counts(Counted(s.pool), |s.held + {(t, s.made)}|, s.failed)
  {
    hide Exclusive, Attended, Counts, Popped, Counted, Returned, HasRoom;
    CountChanges(s.pool, |s.held|, s.failed, 0);
    MadeIsNew(s.pool.objects, s.held, s.made, t);
    if s.pool.objects != [] {
      IdleIsNew(s.pool.objects, s.held, s.made, t);
    }
  }

  lemma MadeIsNew(objects: seq<Object>, held: set<(Thread, Object)>, made: nat, t: Thread)
    requires Exclusive(objects, held, made)
    ensures |held + {(t, made)}| == |held| + 1
  {
    hide Exclusive;
    MakeExclusive(objects, held, made, t);
    HeldAdded(held, (t, made));
  }

  lemma IdleIsNew(objects: seq<Object>, held: set<(Thread, Object)>, made: nat, t: Thread)
    requires Exclusive(objects, held, made) && objects != []
    ensures |held + {(t, Last(objects))}| == |held| + 1
  {
    hide Exclusive;
    PopExclusive(objects, held, made, t);
    HeldAdded(held, (t, Last(objects)));
  }

  lemma ReturnedCounts(s: System, t: Thread, o: Object)
    requires Inv(s) && (t, o) in s.held
    ensures Counts(Returned(s.pool, o), |s.held - {(t, o)}|, s.failed)
  {
    hide Exclusive, Attended, Counts, Popped, Counted, Returned;
    CountChanges(s.pool, |s.held|, s.failed, o);
    HeldRemoved(s.held, (t, o));
  }

  lemma CountsKept(s: System, step: Step)
    requires Inv(s) && Enabled(s, step)
    ensures var s' := Apply(s, step); Counts(s'.pool, |s'.held|, s'.failed)
  {
    hide Exclusive, Attended, Counts, Popped, Counted, Returned;
    match step
    case Fail(t) =>
      CountChanges(s.pool, |s.held|, s.failed, 0);
    case Return(t, o, notified) =>
      ReturnedCounts(s, t, o);
    case _ =>
      TakenCounts(s, step.t);
  }

  lemma MapRemoved(m: map<Thread, Waiter>, t: Thread)
    requires t in m
    ensures |m - {t}| == |m| - 1
  {
    assert m == (m - {t})[t := m[t]];
  }

  lemma AttendedKept(s: System, step: Step)
    requires Inv(s) && Enabled(s, step)
    ensures Attended(Apply(s, step))
  {
    hide Exclusive, Counts;
    if step.Resume? {
      MapRemoved(s.woken, step.t);
    }
  }

  lemma StepKeeps(s: System, step: Step)
    requires Inv(s) && Enabled(s, step)
    ensures Inv(Apply(s, step))
  {
    hide Apply, Counts, Exclusive, Attended;
    CountsKept(s, step);
    ExclusiveKept(s, step);
    AttendedKept(s, step);
  }

  lemma {:induction false} RunKeeps(s: System, steps: seq<Step>)
    requires Inv(s) && Run(s, steps)
    ensures Inv(Final(s, steps))
    decreases |steps|
  {
    hide Inv, Apply, Enabled;
    if steps != [] {
      StepKeeps(s, steps[0]);
      RunKeeps(Apply(s, steps[0]), steps[1..]);
    }
  }

  // ---- the promises ----

  lemma {:induction false} RunKeepsFailed(s: System, steps: seq<Step>)
    requires Run(s, steps)
    ensures Final(s, steps).pool.maxSize == s.pool.maxSize && Final(s, steps).failed >= s.failed
    ensures (forall i | 0 <= i < |steps| :: !steps[i].Fail?) ==> Final(s, steps).failed == s.failed
    decreases |steps|
  {
    if steps != [] {
      RunKeepsFailed(Apply(s, steps[0]), steps[1..]);
      assert forall i | 0 <= i < |steps[1..]| :: steps[1..][i] == steps[i + 1];
    }
  }

  /** Every state reached from an empty pool. Calls whose factory threw keep their place in the
      counts; without any, a sleeper always has a woken thread or a holder ahead of it. */
  lemma ReachableSafe(maxSize: nat, steps: seq<Step>)
    requires Run(Initial(maxSize), steps)
    ensures var s := Final(Initial(maxSize), steps);
      && s.pool.borrowedSize == |s.held| + s.failed
      && s.pool.allocatedSize == |s.held| + |s.pool.objects| + s.failed
      && (maxSize > 0 ==> s.pool.allocatedSize <= maxSize)
      && (forall h, h' | h in s.held && h' in s.held && h.1 == h'.1 :: h == h')
      && (forall h, i | h in s.held && 0 <= i < |s.pool.objects| :: h.1 != s.pool.objects[i])
      && (s.sleeping != map[] ==> s.pool.allocatedSize == maxSize && |s.woken| >= |s.pool.objects|)
      && (s.sleeping != map[] && s.failed < maxSize ==> s.woken != map[] || s.held != {})
      && (maxSize == 0 ==> s.sleeping == map[] && s.woken == map[])
      && ((forall i | 0 <= i < |steps| :: !steps[i].Fail?) ==> s.failed == 0)
  {
    hide Run, Final, Apply, Enabled;
    assert Inv(Initial(maxSize));
    RunKeeps(Initial(maxSize), steps);
    RunKeepsFailed(Initial(maxSize), steps);
  }

  /** The thread holds some object. */
  ghost predicate Served(s: System, t: Thread) {
    exists o :: (t, o) in s.held
  }

  /** Clients that do not wait for one object while holding another. */
  ghost predicate HoldersRun(s: System) {
    forall h | h in s.held :: Outside(s, h.0)
  }

  /** From any reachable state a sleeper can be served by returns and resumptions alone:
      no spurious wakeup or timeout is needed, so no wakeup has been lost. */
  lemma Servable(s: System, t: Thread) returns (steps: seq<Step>)
    requires Inv(s) && HoldersRun(s) && t in s.sleeping && s.failed < s.pool.maxSize
    ensures Run(s, steps) && Served(Final(s, steps), t)
    ensures forall i | 0 <= i < |steps| :: steps[i].Return? || steps[i].Resume?
  {
    hide Exclusive;
    if h :| h in s.held {
      steps := ServedByReturn(s, t);
    } else {
      var w :| w in s.woken;
      assert s.pool.objects != [];
      var first := Resume(w);
      var s1 := Apply(s, first);
      StepKeeps(s, first);
      var h := (w, Last(s.pool.objects));
      assert h in s1.held && Outside(s1, h.0);
      var rest := ServedByReturn(s1, t);
      steps := [first] + rest;
      assert steps[1..] == rest;
    }
  }

  lemma ServedByReturn(s: System, t: Thread) returns (steps: seq<Step>)
    requires Inv(s) && t in s.sleeping && exists h :: h in s.held && Outside(s, h.0)
    ensures Run(s, steps) && Served(Final(s, steps), t)
    ensures forall i | 0 <= i < |steps| :: steps[i].Return? || steps[i].Resume?
  {
    hide Exclusive;
    var h :| h in s.held && Outside(s, h.0);
    var back, resume := Return(h.0, h.1, t), Resume(t);
    var s1 := Apply(s, back);
    var s2 := Apply(s1, resume);
    assert (t, h.1) in s2.held;
    steps := [back, resume];
    TwoSteps(s, back, resume);
  }

  lemma TwoSteps(s: System, a: Step, b: Step)
    requires Enabled(s, a) && Enabled(Apply(s, a), b)
    ensures Run(s, [a, b]) && Final(s, [a, b]) == Apply(Apply(s, a), b)
  {
    hide Apply, Enabled;
    OneStep(Apply(s, a), b);
    assert [a, b][1..] == [b];
  }

  lemma OneStep(s: System, b: Step)
    requires Enabled(s, b)
    ensures Run(s, [b]) && Final(s, [b]) == Apply(s, b)
  {
    hide Apply, Enabled;
    assert [b][1..] == [];
    assert Final(Apply(s, b), []) == Apply(s, b);
  }

  /** A sleeper can still be served exactly while some allocation has not failed: a
      throwing factory uses up its place for good. */
  lemma ServableIff(s: System, t: Thread)
    requires Inv(s) && HoldersRun(s) && t in s.sleeping
    ensures (exists steps :: Run(s, steps) && Served(Final(s, steps), t)) <==> s.failed < s.pool.maxSize
  {
    hide Run, Final, Exclusive;
    if s.failed < s.pool.maxSize {
      var steps := Servable(s, t);
    }
    if steps :| Run(s, steps) && Served(Final(s, steps), t) {
      RunKeeps(s, steps);
      RunKeepsFailed(s, steps);
      SomeoneHolds(Final(s, steps), t);
    }
  }

  lemma SomeoneHolds(s: System, t: Thread)
    requires Inv(s) && Served(s, t) && s.pool.maxSize > 0
    ensures s.failed < s.pool.maxSize
  {
    hide Exclusive;
    var o :| (t, o) in s.held;
    HeldRemoved(s.held, (t, o));
  }

  /** In a pool of one, a factory that throws leaves the next client asleep: nobody holds
      an object or is awake, and no run ever serves it. */
  lemma StuckForever()
    ensures var steps := [Fail(0), Sleep(1, false)];
      && Run(Initial(1), steps)
      && var s := Final(Initial(1), steps);
         && 1 in s.sleeping && s.woken == map[] && s.held == {} && s.pool.objects == []
         && !exists later :: Run(s, later) && Served(Final(s, later), 1)
  {
    hide Run, Final;
    var steps := [Fail(0), Sleep(1, false)];
    TwoSteps(Initial(1), Fail(0), Sleep(1, false));
    assert Inv(Initial(1));
    RunKeeps(Initial(1), steps);
    ServableIff(Final(Initial(1), steps), 1);
  }

  // ---- exactly which sleepers can be served ----

  /** Some run, in which t itself only waits, wakes t while an object is idle. */
  ghost predicate MayFind(s: System, t: Thread) {
    exists steps :: Run(s, steps) && Finds(s, steps, t)
  }

  /** And one made of returns, timeouts of others and resumptions alone: no spurious wakeup
      and no new call is needed. */
  ghost predicate WillFind(s: System, t: Thread) {
    exists steps :: Run(s, steps) && Finds(s, steps, t) && Orderly(steps, t)
  }

  predicate Orderly(steps: seq<Step>, t: Thread) {
    forall i | 0 <= i < |steps| :: OrderlyStep(steps[i], t)
  }

  predicate OrderlyStep(step: Step, t: Thread) {
    step.Return? || ((step.Resume? || step.Expire?) && step.t != t)
  }

  ghost predicate Finds(s: System, steps: seq<Step>, t: Thread)
    requires Run(s, steps)
  {
    && (forall i | 0 <= i < |steps| :: steps[i] != Resume(t))
    && t in Final(s, steps).woken && Final(s, steps).pool.objects != []
  }

  /** A thread that is not waiting, or whose wait ends by its timeout. */
  predicate CanLeave(s: System, p: Thread) {
    || Outside(s, p)
    || (p in s.sleeping && s.sleeping[p].timed)
    || (p in s.woken && (s.woken[p].timed || s.woken[p].expired))
  }

  ghost predicate Promised(s: System, t: Thread) {
    s.pool.objects != [] || exists h :: h in s.held && h.0 != t && CanLeave(s, h.0)
  }

  lemma FoundNow(s: System, t: Thread)
    requires t in s.woken && s.pool.objects != []
    ensures WillFind(s, t)
  {
    assert Run(s, []) && Finds(s, [], t) && Orderly([], t);
  }

  lemma FoundLater(s: System, t: Thread, step: Step)
    requires Enabled(s, step) && OrderlyStep(step, t) && WillFind(Apply(s, step), t)
    ensures WillFind(s, t)
  {
    hide Apply, Enabled;
    var s1 := Apply(s, step);
    var rest :| Run(s1, rest) && Finds(s1, rest, t) && Orderly(rest, t);
    var steps := [step] + rest;
    assert steps[1..] == rest;
    assert Run(s, steps) && Final(s, steps) == Final(s1, rest);
    assert Finds(s, steps, t) && Orderly(steps, t);
  }

  lemma FoundByReturn(s: System, t: Thread, h: (Thread, Object))
    requires t in s.sleeping && h in s.held && Outside(s, h.0)
    ensures WillFind(s, t)
  {
    var step := Return(h.0, h.1, t);
    FoundNow(Apply(s, step), t);
    FoundLater(s, t, step);
  }

  lemma FoundByExpired(s: System, t: Thread, h: (Thread, Object))
    requires t in s.sleeping && h in s.held && h.0 != t && s.pool.objects == []
    requires h.0 !in s.sleeping && h.0 in s.woken && s.woken[h.0].expired
    ensures WillFind(s, t)
  {
    var step := Resume(h.0);
    FoundByReturn(Apply(s, step), t, h);
    FoundLater(s, t, step);
  }

  lemma FoundByTimeout(s: System, t: Thread, h: (Thread, Object))
    requires t in s.sleeping && h in s.held && h.0 != t && s.pool.objects == []
    requires h.0 in s.sleeping && s.sleeping[h.0].timed
    ensures WillFind(s, t)
  {
    var step := Expire(h.0);
    FoundByExpired(Apply(s, step), t, h);
    FoundLater(s, t, step);
  }

  lemma FoundByWoken(s: System, t: Thread, h: (Thread, Object))
    requires t in s.sleeping && h in s.held && h.0 != t && s.pool.objects == []
    requires h.0 !in s.sleeping && h.0 in s.woken && s.woken[h.0].timed && !s.woken[h.0].expired
    ensures WillFind(s, t)
  {
    var step := Resume(h.0);
    FoundByTimeout(Apply(s, step), t, h);
    FoundLater(s, t, step);
  }

  /** While somebody sleeps, every idle object has a woken thread on its way. */
  lemma SomeWoken(s: System) returns (w: Thread)
    requires Inv(s) && s.sleeping != map[] && s.pool.objects != []
    ensures w in s.woken && w !in s.sleeping
  {
    hide Counts, Exclusive;
    if s.woken == map[] {
      assert false;
    }
    w :| w in s.woken;
  }

  /** That thread takes the object and returns it. */
  lemma FoundByOwner(s: System, t: Thread, w: Thread)
    requires t in s.sleeping && s.pool.objects != [] && w in s.woken && w !in s.sleeping
    ensures WillFind(s, t)
  {
    var step := Resume(w);
    FoundByReturn(Apply(s, step), t, (w, Last(s.pool.objects)));
    FoundLater(s, t, step);
  }

  lemma PromiseKept(s: System, t: Thread)
    requires Inv(s) && t in s.sleeping && Promised(s, t)
    ensures WillFind(s, t)
  {
    hide Apply, Counts, Exclusive, WillFind;
    if s.pool.objects != [] {
      var w := SomeWoken(s);
      FoundByOwner(s, t, w);
    } else {
      var h :| h in s.held && h.0 != t && CanLeave(s, h.0);
      if Outside(s, h.0) {
        FoundByReturn(s, t, h);
      } else if h.0 in s.sleeping {
        FoundByTimeout(s, t, h);
      } else if s.woken[h.0].expired {
        FoundByExpired(s, t, h);
      } else {
        FoundByWoken(s, t, h);
      }
    }
  }

  /** No object is idle, none can be made, and every other holder waits without a timeout. */
  ghost predicate Blocked(s: System, t: Thread) {
    && (t in s.sleeping || t in s.woken) && s.pool.objects == [] && !HasRoom(s.pool)
    && forall h | h in s.held && h.0 != t :: !CanLeave(s, h.0)
  }

  /** A thread that waits without a timeout goes on doing so while nothing is idle. */
  lemma StillStuck(s: System, step: Step, p: Thread)
    requires Attended(s) && s.pool.objects == [] && Enabled(s, step) && !CanLeave(s, p)
    ensures !CanLeave(Apply(s, step), p)
  {
    hide Popped, Counted, Returned, HasRoom;
  }

  /** No step but a return changes who holds what, and nobody can return. */
  lemma NothingMoves(s: System, t: Thread, step: Step)
    requires Blocked(s, t) && Enabled(s, step) && step != Resume(t)
    ensures Apply(s, step).held == s.held && Apply(s, step).pool == s.pool
    ensures t in Apply(s, step).sleeping || t in Apply(s, step).woken
  {
  }

  lemma StaysBlocked(s: System, t: Thread, step: Step)
    requires Inv(s) && Blocked(s, t) && Enabled(s, step) && step != Resume(t)
    ensures Blocked(Apply(s, step), t)
  {
    hide Counts, Exclusive, Attended, Apply, Enabled, CanLeave;
    NothingMoves(s, t, step);
    forall h | h in s.held && h.0 != t
      ensures !CanLeave(Apply(s, step), h.0)
    {
      StillStuck(s, step, h.0);
    }
  }

  lemma {:induction false} RunStaysBlocked(s: System, t: Thread, steps: seq<Step>)
    requires Inv(s) && Blocked(s, t) && Run(s, steps) && forall i | 0 <= i < |steps| :: steps[i] != Resume(t)
    ensures Blocked(Final(s, steps), t)
    decreases |steps|
  {
    hide Inv, Apply, Enabled, Blocked;
    if steps != [] {
      StaysBlocked(s, t, steps[0]);
      StepKeeps(s, steps[0]);
      RunStaysBlocked(Apply(s, steps[0]), t, steps[1..]);
    }
  }

  /** A sleeper can find an object exactly when one is idle or held by another thread that can
      leave the pool: one that is not waiting, or waits with a timeout. Then returns, timeouts
      and resumptions suffice; otherwise no run at all succeeds. */
  lemma FindsExactly(s: System, t: Thread)
    requires Inv(s) && t in s.sleeping
    ensures WillFind(s, t) <==> Promised(s, t)
    ensures MayFind(s, t) <==> Promised(s, t)
  {
    hide Run, Final, Apply, Enabled, Counts, Exclusive;
    if Promised(s, t) {
      PromiseKept(s, t);
    } else if MayFind(s, t) {
      var steps :| Run(s, steps) && Finds(s, steps, t);
      RunStaysBlocked(s, t, steps);
    }
  }
}
