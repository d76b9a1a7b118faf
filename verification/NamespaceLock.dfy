/**
 LocalBackup.lockNamespace as a protocol of interleaved steps. Any number of
 threads lock and unlock any namespaces; each statement that touches shared
 state is one step, including taking and releasing the registry mutex.
 */
module NamespaceLock {
  import opened Wrappers

  type Thread = nat
  type Namespace = string
  type Id = nat

  /** Where a thread is; idle threads have no entry in State.at. */
  datatype At =
    | Arriving(ns: Namespace)               // before namespaceMu.Lock
    | Looking(ns: Namespace)                // before the map lookup
    | Creating(ns: Namespace)               // the lookup found nothing
    | Counting(ns: Namespace, id: Id)       // before refs++
    | Counted(ns: Namespace, id: Id)        // before namespaceMu.Unlock
    | Waiting(ns: Namespace, id: Id)        // before operation.mu.Lock
    | Inside(ns: Namespace, id: Id)         // in the critical section
    | Departing(ns: Namespace, id: Id)      // before the second namespaceMu.Lock
    | Uncounting(ns: Namespace, id: Id)     // before refs--
    | Sweeping(ns: Namespace, id: Id)       // before the refs == 0 test
    | Leaving(ns: Namespace, id: Id)        // before the last namespaceMu.Unlock

  datatype Operation = Operation(refs: int, holder: Option<Thread>)

  datatype State = State(
    ops: map<Namespace, Id>,                // namespaceOps
    objects: map<Id, Operation>,            // every namespaceOperation ever allocated
    registry: Option<Thread>,               // the holder of namespaceMu
    at: map<Thread, At>)

  predicate Initial(s: State) {
    s == State(map[], map[], None, map[])
  }

  // ----- steps -----

  predicate HoldsRegistry(a: At) {
    a.Looking? || a.Creating? || a.Counting? || a.Counted? || a.Uncounting? || a.Sweeping? || a.Leaving?
  }

  function Go(s: State, t: Thread, a: At): State {
    s.(at := s.at[t := a])
  }

  function SetRefs(s: State, id: Id, delta: int): State
    requires id in s.objects
  {
    s.(objects := s.objects[id := s.objects[id].(refs := s.objects[id].refs + delta)])
  }

  function SetHolder(s: State, id: Id, holder: Option<Thread>): State
    requires id in s.objects
  {
    s.(objects := s.objects[id := s.objects[id].(holder := holder)])
  }

  /** A thread that is idle calls lockNamespace(ns). */
  ghost predicate Arrive(s: State, s': State, t: Thread, ns: Namespace) {
    t !in s.at && s' == Go(s, t, Arriving(ns))
  }

  /** The next statement of a thread inside lockNamespace or its unlock closure. */
  ghost predicate Advance(s: State, s': State, t: Thread, next: Id) {
    t in s.at &&
    match s.at[t]
    case Arriving(ns) => s.registry.None? && s' == Go(s, t, Looking(ns)).(registry := Some(t))
    case Looking(ns) =>
      s' == Go(s, t, if ns in s.ops then Counting(ns, s.ops[ns]) else Creating(ns))
    case Creating(ns) =>
      next !in s.objects &&
      s' == Go(s, t, Counting(ns, next)).(
        ops := s.ops[ns := next], objects := s.objects[next := Operation(0, None)])
    case Counting(ns, id) => id in s.objects && s' == Go(SetRefs(s, id, 1), t, Counted(ns, id))
    case Counted(ns, id) => s' == Go(s, t, Waiting(ns, id)).(registry := None)
    case Waiting(ns, id) =>
      id in s.objects && s.objects[id].holder.None? && s' == Go(SetHolder(s, id, Some(t)), t, Inside(ns, id))
    case Inside(ns, id) => id in s.objects && s' == Go(SetHolder(s, id, None), t, Departing(ns, id))
    case Departing(ns, id) => s.registry.None? && s' == Go(s, t, Uncounting(ns, id)).(registry := Some(t))
    case Uncounting(ns, id) => id in s.objects && s' == Go(SetRefs(s, id, -1), t, Sweeping(ns, id))
    case Sweeping(ns, id) =>
      id in s.objects &&
      s' == Go(s, t, Leaving(ns, id)).(ops := if s.objects[id].refs == 0 then s.ops - {ns} else s.ops)
    case Leaving(ns, id) => s' == s.(at := s.at - {t}, registry := None)
  }

  ghost predicate Step(s: State, s': State) {
    || (exists t, ns :: Arrive(s, s', t, ns))
    || (exists t, next :: Advance(s, s', t, next))
  }

  ghost predicate Run(states: seq<State>) {
    states != [] && Initial(states[0]) &&
    forall i :: 0 <= i < |states| - 1 ==> Step(states[i], states[i + 1])
  }

  // ----- the invariant -----

  /** The thread's reference is counted in the object it knows. */
  predicate Holding(a: At) {
    a.Counted? || a.Waiting? || a.Inside? || a.Departing? || a.Uncounting?
  }

  /** The thread knows an object the registry must still list. */
  predicate Using(a: At) {
    Holding(a) || a.Counting? || a.Sweeping?
  }

  function Holders(s: State, id: Id): set<Thread> {
    set t | t in s.at && Holding(s.at[t]) && s.at[t].id == id
  }

  ghost predicate RegistryInv(s: State) {
    && (forall t :: t in s.at ==> (HoldsRegistry(s.at[t]) <==> s.registry == Some(t)))
    && (s.registry.Some? ==> s.registry.value in s.at)
  }

  ghost predicate MapInv(s: State) {
    && (forall ns :: ns in s.ops ==> s.ops[ns] in s.objects)
    && (forall m, n :: m in s.ops && n in s.ops && s.ops[m] == s.ops[n] ==> m == n)
    && (forall t :: t in s.at && Using(s.at[t]) ==> s.at[t].ns in s.ops && s.ops[s.at[t].ns] == s.at[t].id)
    && (forall t :: t in s.at && s.at[t].Creating? ==> s.at[t].ns !in s.ops)
  }

  ghost predicate RefsInv(s: State) {
    forall id :: id in s.objects ==> s.objects[id].refs == |Holders(s, id)|
  }

  ghost predicate EntryInv(s: State) {
    forall ns :: ns in s.ops && Holders(s, s.ops[ns]) == {} ==> InFlux(s, ns)
  }

  ghost predicate MutexInv(s: State) {
    && (forall id :: id in s.objects && s.objects[id].holder.Some? ==>
          var t := s.objects[id].holder.value; t in s.at && s.at[t].Inside? && s.at[t].id == id)
    && (forall t :: t in s.at && s.at[t].Inside? ==>
          s.at[t].id in s.objects && s.objects[s.at[t].id].holder == Some(t))
  }

  ghost predicate Inv(s: State) {
    RegistryInv(s) && MapInv(s) && RefsInv(s) && EntryInv(s) && MutexInv(s)
  }

  /** An uncounted entry exists only while its creator or its last user holds the registry. */
  ghost predicate InFlux(s: State, ns: Namespace) {
    s.registry.Some? && s.registry.value in s.at &&
    (s.at[s.registry.value].Counting? || s.at[s.registry.value].Sweeping?) &&
    s.at[s.registry.value].ns == ns
  }

  // ----- every step keeps it -----

  lemma StepKeepsRegistry(s: State, s': State, t: Thread, next: Id)
    requires Inv(s) && Advance(s, s', t, next)
    ensures RegistryInv(s')
  {
  }

  lemma StepKeepsMutex(s: State, s': State, t: Thread, next: Id)
    requires MutexInv(s) && Advance(s, s', t, next)
    ensures MutexInv(s')
  {
    var a := s.at[t];
    if a.Waiting? {
      assert forall u :: u in s.at && s.at[u].Inside? ==> s.at[u].id != a.id;
    } else if a.Inside? {
      assert forall u :: u in s.at && s.at[u].Inside? && s.at[u].id == a.id ==> u == t;
    }
  }

  lemma SweepKeepsMap(s: State, s': State, t: Thread, next: Id)
    requires RegistryInv(s) && MapInv(s) && RefsInv(s) && Advance(s, s', t, next) && s.at[t].Sweeping?
    ensures MapInv(s')
  {
    var a := s.at[t];
    if s.objects[a.id].refs == 0 {
      assert Holders(s, a.id) == {};
      assert forall u :: u in s.at && Holding(s.at[u]) && s.at[u].id == a.id ==> u in Holders(s, a.id);
    }
  }

  lemma CreateKeepsMap(s: State, s': State, t: Thread, next: Id)
    requires RegistryInv(s) && MapInv(s) && Advance(s, s', t, next) && s.at[t].Creating?
    ensures MapInv(s')
  {
    assert forall u :: u in s.at && u != t ==> !s.at[u].Creating?;
  }

  lemma QuietStepKeepsMap(s: State, s': State, t: Thread, next: Id)
    requires MapInv(s) && Advance(s, s', t, next) && !s.at[t].Sweeping? && !s.at[t].Creating?
    ensures MapInv(s')
  {
    assert s'.ops == s.ops && s.objects.Keys <= s'.objects.Keys;
    assert forall u :: u in s'.at && u != t ==> u in s.at && s'.at[u] == s.at[u];
  }

  ghost predicate OthersStay(s: State, s': State, t: Thread) {
    forall u :: u != t ==> (u in s.at <==> u in s'.at) && (u in s.at ==> s.at[u] == s'.at[u])
  }

  /** Whether the thread's reference is counted in this object. */
  predicate CountedIn(s: State, t: Thread, id: Id) {
    t in s.at && Holding(s.at[t]) && s.at[t].id == id
  }

  lemma OwnStep(s: State, s': State, t: Thread, next: Id, id: Id)
    requires Advance(s, s', t, next)
    ensures OthersStay(s, s', t)
    ensures var a := s.at[t];
      CountedIn(s', t, id) == ((a.Counting? && a.id == id) || (CountedIn(s, t, id) && !a.Uncounting?))
    ensures s.at[t].Counting? ==> !CountedIn(s, t, id)
    ensures s.at[t].Uncounting? && s.at[t].id == id ==> CountedIn(s, t, id)
  {
  }

  lemma HoldersChange(s: State, s': State, t: Thread, id: Id)
    requires OthersStay(s, s', t)
    ensures Holders(s', id) == if CountedIn(s', t, id) then Holders(s, id) + {t} else Holders(s, id) - {t}
  {
  }

  /** What one step does to the threads counted in an object. */
  lemma HoldersAfterStep(s: State, s': State, t: Thread, next: Id, id: Id)
    requires Advance(s, s', t, next)
    ensures var a := s.at[t];
      Holders(s', id) == (if a.Counting? && a.id == id then Holders(s, id) + {t}
                          else if a.Uncounting? && a.id == id then Holders(s, id) - {t} else Holders(s, id))
    ensures s.at[t].Counting? ==> t !in Holders(s, id)
    ensures s.at[t].Uncounting? && s.at[t].id == id ==> t in Holders(s, id)
  {
    OwnStep(s, s', t, next, id);
    HoldersChange(s, s', t, id);
    assert CountedIn(s, t, id) <==> t in Holders(s, id);
    assert t in Holders(s, id) ==> Holders(s, id) + {t} == Holders(s, id);
    assert t !in Holders(s, id) ==> Holders(s, id) - {t} == Holders(s, id);
  }

  lemma StepKeepsRefs(s: State, s': State, t: Thread, next: Id)
    requires MapInv(s) && RefsInv(s) && Advance(s, s', t, next)
    ensures RefsInv(s')
  {
    forall id | id in s'.objects ensures s'.objects[id].refs == |Holders(s', id)| {
      HoldersAfterStep(s, s', t, next, id);
      if s.at[t].Creating? && id == next {
        assert forall u :: u in s.at && Holding(s.at[u]) ==> s.at[u].id in s.objects;
        assert Holders(s, id) == {};
      }
    }
  }

  lemma StepKeepsEntries(s: State, s': State, t: Thread, next: Id)
    requires RegistryInv(s) && MapInv(s) && RefsInv(s) && EntryInv(s) && Advance(s, s', t, next)
    ensures EntryInv(s')
  {
    forall ns | ns in s'.ops && Holders(s', s'.ops[ns]) == {} ensures InFlux(s', ns) {
      HoldersAfterStep(s, s', t, next, s'.ops[ns]);
    }
  }

  lemma ArriveKeepsInv(s: State, s': State, t: Thread, ns: Namespace)
    requires Inv(s) && Arrive(s, s', t, ns)
    ensures Inv(s')
  {
    forall id ensures Holders(s', id) == Holders(s, id) {
    }
  }

  lemma AdvanceKeepsInv(s: State, s': State, t: Thread, next: Id)
    requires Inv(s) && Advance(s, s', t, next)
    ensures Inv(s')
  {
    StepKeepsRegistry(s, s', t, next);
    if s.at[t].Sweeping? {
      SweepKeepsMap(s, s', t, next);
    } else if s.at[t].Creating? {
      CreateKeepsMap(s, s', t, next);
    } else {
      QuietStepKeepsMap(s, s', t, next);
    }
    StepKeepsRefs(s, s', t, next);
    StepKeepsEntries(s, s', t, next);
    StepKeepsMutex(s, s', t, next);
  }

  lemma {:induction false} RunKeepsInv(states: seq<State>, i: nat)
    requires Run(states) && i < |states|
    ensures Inv(states[i])
  {
    if i > 0 {
      RunKeepsInv(states, i - 1);
      var s, s' := states[i - 1], states[i];
      assert Step(s, s');
      if t, ns :| Arrive(s, s', t, ns) {
        ArriveKeepsInv(s, s', t, ns);
      } else {
        var t, next :| Advance(s, s', t, next);
        AdvanceKeepsInv(s, s', t, next);
      }
    }
  }

  // ----- what the lock promises, in every reachable state -----

  /** The threads that are inside or queueing for a namespace, or not yet checked out of it. */
  function Present(s: State, ns: Namespace): set<Thread> {
    set t | t in s.at && Holding(s.at[t]) && s.at[t].ns == ns
  }

  lemma MutualExclusion(states: seq<State>, i: nat, t: Thread, u: Thread)
    requires Run(states) && i < |states|
    requires t in states[i].at && states[i].at[t].Inside?
    requires u in states[i].at && states[i].at[u].Inside?
    requires states[i].at[t].ns == states[i].at[u].ns
    ensures t == u
  {
    RunKeepsInv(states, i);
  }

  /** One object per namespace, counting exactly the threads present. */
  lemma SharedLockCounts(states: seq<State>, i: nat, t: Thread)
    requires Run(states) && i < |states|
    requires t in states[i].at && Holding(states[i].at[t])
    ensures var s, ns := states[i], states[i].at[t].ns;
      && ns in s.ops && s.ops[ns] in s.objects
      && (forall u :: u in Present(s, ns) ==> s.at[u].id == s.ops[ns])
      && s.objects[s.ops[ns]].refs == |Present(s, ns)|
  {
    RunKeepsInv(states, i);
    PresentAreHolders(states[i], states[i].at[t].ns);
  }

  lemma PresentAreHolders(s: State, ns: Namespace)
    requires Inv(s) && ns in s.ops
    ensures Present(s, ns) == Holders(s, s.ops[ns])
  {
  }

  /** Whenever the registry mutex is free, an entry exists exactly for the namespaces in use. */
  lemma EntryIffPresent(states: seq<State>, i: nat, ns: Namespace)
    requires Run(states) && i < |states| && states[i].registry.None?
    ensures ns in states[i].ops <==> Present(states[i], ns) != {}
  {
    RunKeepsInv(states, i);
    var s := states[i];
    if ns in s.ops {
      PresentAreHolders(s, ns);
    } else if t :| t in Present(s, ns) {
      assert Using(s.at[t]);
    }
  }

  lemma {:induction false} FreshId(ids: set<Id>) returns (next: Id)
    ensures forall id :: id in ids ==> id < next
  {
    if ids == {} {
      next := 0;
    } else {
      var id :| id in ids;
      var m := FreshId(ids - {id});
      next := if m > id then m else id + 1;
      assert forall x :: x in ids ==> x == id || x in ids - {id};
    }
  }

  lemma CanAdvance(s: State, t: Thread)
    requires Inv(s) && t in s.at
    requires s.registry == Some(t) || s.at[t].Inside? ||
             (s.registry.None? && (s.at[t].Arriving? || s.at[t].Departing?)) ||
             (s.at[t].Waiting? && s.at[t].id in s.objects && s.objects[s.at[t].id].holder.None?)
    ensures exists s', next :: Advance(s, s', t, next)
  {
    var next := FreshId(s.objects.Keys);
    var s' := match s.at[t]
      case Arriving(ns) => Go(s, t, Looking(ns)).(registry := Some(t))
      case Looking(ns) => Go(s, t, if ns in s.ops then Counting(ns, s.ops[ns]) else Creating(ns))
      case Creating(ns) => Go(s, t, Counting(ns, next)).(
        ops := s.ops[ns := next], objects := s.objects[next := Operation(0, None)])
      case Counting(ns, id) => Go(SetRefs(s, id, 1), t, Counted(ns, id))
      case Counted(ns, id) => Go(s, t, Waiting(ns, id)).(registry := None)
      case Waiting(ns, id) => Go(SetHolder(s, id, Some(t)), t, Inside(ns, id))
      case Inside(ns, id) => Go(SetHolder(s, id, None), t, Departing(ns, id))
      case Departing(ns, id) => Go(s, t, Uncounting(ns, id)).(registry := Some(t))
      case Uncounting(ns, id) => Go(SetRefs(s, id, -1), t, Sweeping(ns, id))
      case Sweeping(ns, id) =>
        Go(s, t, Leaving(ns, id)).(ops := if s.objects[id].refs == 0 then s.ops - {ns} else s.ops)
      case Leaving(ns, id) => s.(at := s.at - {t}, registry := None);
    assert Advance(s, s', t, next);
  }

  /** Some call in progress has a step. */
  ghost predicate CanMove(s: State) {
    exists t, s', next :: Advance(s, s', t, next)
  }

  /** No deadlock: while any call is in progress, some thread can take its next step. */
  lemma SomeoneCanStep(states: seq<State>, i: nat)
    requires Run(states) && i < |states| && states[i].at != map[]
    ensures CanMove(states[i])
  {
    RunKeepsInv(states, i);
    var s := states[i];
    var t: Thread :| t in s.at;
    var u := if s.registry.Some? then s.registry.value
             else if s.at[t].Waiting? && s.objects[s.at[t].id].holder.Some? then s.objects[s.at[t].id].holder.value
             else t;
    CanAdvance(s, u);
  }

  // ----- every call comes to hold its lock -----

  predicate AfterInside(a: At) {
    a.Departing? || a.Uncounting? || a.Sweeping? || a.Leaving?
  }

  predicate BeforeInside(a: At) {
    a.Arriving? || a.Looking? || a.Creating? || a.Counting? || a.Counted? || a.Waiting?
  }

  predicate Holds(s: State, id: Id, t: Thread) {
    id in s.objects && s.objects[id].holder == Some(t)
  }

  function Where(s: State, t: Thread): Option<At> {
    if t in s.at then Some(s.at[t]) else None
  }

  /** How a thread may have come out of its critical section, and where it may go from before it. */
  predicate Follows(a: Option<At>, b: Option<At>) {
    && (b.Some? && AfterInside(b.value) ==>
          a.Some? && (a.value.Inside? || AfterInside(a.value)) && a.value.ns == b.value.ns && a.value.id == b.value.id)
    && (a.Some? && BeforeInside(a.value) ==>
          b.Some? && (b.value.Inside? || BeforeInside(b.value)) && a.value.ns == b.value.ns)
  }

  lemma StepFollows(s: State, s': State, t: Thread)
    requires Step(s, s')
    ensures Follows(Where(s, t), Where(s', t))
  {
    if u, ns :| Arrive(s, s', u, ns) {
    } else {
      var u, next :| Advance(s, s', u, next);
      OwnStep(s, s', u, next, 0);
      if u != t {
        assert Where(s, t) == Where(s', t);
      }
    }
  }

  /** One thread's way through a run. */
  function Path(states: seq<State>, t: Thread): seq<Option<At>> {
    seq(|states|, i requires 0 <= i < |states| => Where(states[i], t))
  }

  ghost predicate Followed(path: seq<Option<At>>) {
    path != [] && path[0] == None && forall i :: 0 <= i < |path| - 1 ==> Follows(path[i], path[i + 1])
  }

  lemma PathIsFollowed(states: seq<State>, t: Thread)
    requires Run(states)
    ensures Followed(Path(states, t))
  {
    var path := Path(states, t);
    forall i | 0 <= i < |path| - 1 ensures Follows(path[i], path[i + 1]) {
      assert Step(states[i], states[i + 1]);
      StepFollows(states[i], states[i + 1], t);
    }
  }

  /** From k on, where it is inside, the thread has not left this call. */
  ghost predicate InsideAt(path: seq<Option<At>>, k: nat, i: nat, ns: Namespace, id: Id) {
    && k < i < |path| && path[k] == Some(Inside(ns, id))
    && forall j :: k < j <= i ==> path[j].Some? && AfterInside(path[j].value)
  }

  lemma {:induction false} CameFromInside(path: seq<Option<At>>, i: nat) returns (k: nat)
    requires Followed(path) && i < |path| && path[i].Some? && AfterInside(path[i].value)
    ensures InsideAt(path, k, i, path[i].value.ns, path[i].value.id)
  {
    assert i > 0;
    assert Follows(path[i - 1], path[i]);
    if path[i - 1].value.Inside? {
      k := i - 1;
    } else {
      k := CameFromInside(path, i - 1);
    }
  }

  /** A thread on its way out held the lock earlier in the same call. */
  lemma WasInside(states: seq<State>, i: nat, t: Thread)
    requires Run(states) && i < |states| && t in states[i].at && AfterInside(states[i].at[t])
    ensures exists k: nat ::
      && InsideAt(Path(states, t), k, i, states[i].at[t].ns, states[i].at[t].id)
      && Holds(states[k], states[i].at[t].id, t)
  {
    PathIsFollowed(states, t);
    var k := CameFromInside(Path(states, t), i);
    assert Path(states, t)[k] == Where(states[k], t);
    RunKeepsInv(states, k);
  }

  /** A waiter whose lock is free has a step that takes it. */
  lemma WaiterCanEnter(states: seq<State>, i: nat, t: Thread, ns: Namespace, id: Id)
    requires Run(states) && i < |states| && t in states[i].at && states[i].at[t] == Waiting(ns, id)
    requires id in states[i].objects && states[i].objects[id].holder.None?
    ensures exists s', next ::
      Advance(states[i], s', t, next) && t in s'.at && s'.at[t] == Inside(ns, id) && Holds(s', id, t)
  {
    var s := states[i];
    var s' := Go(SetHolder(s, id, Some(t)), t, Inside(ns, id));
    assert Advance(s, s', t, 0) && Holds(s', id, t);
  }

  /** At most how many steps a call has left. */
  function Left(a: At): nat {
    match a
    case Arriving(_) => 11
    case Looking(_) => 10
    case Creating(_) => 9
    case Counting(_, _) => 8
    case Counted(_, _) => 7
    case Waiting(_, _) => 6
    case Inside(_, _) => 5
    case Departing(_, _) => 4
    case Uncounting(_, _) => 3
    case Sweeping(_, _) => 2
    case Leaving(_, _) => 1
  }

  ghost function Work(at: map<Thread, At>): nat {
    if at == map[] then 0 else
      var t :| t in at;
      Left(at[t]) + Work(at - {t})
  }

  lemma {:induction false} WorkOfOne(at: map<Thread, At>, t: Thread)
    requires t in at
    ensures Work(at) == Left(at[t]) + Work(at - {t})
    decreases |at|
  {
    var u :| u in at && Work(at) == Left(at[u]) + Work(at - {u});
    if u != t {
      WorkOfOne(at - {u}, t);
      WorkOfOne(at - {t}, u);
      assert at - {u} - {t} == at - {t} - {u};
    }
  }

  lemma OneLess(s: State, s': State, t: Thread, next: Id)
    requires Advance(s, s', t, next)
    ensures s'.at - {t} == s.at - {t}
    ensures if t in s'.at then Left(s'.at[t]) < Left(s.at[t]) else s'.at == s.at - {t}
  {
  }

  /** Every step of a call uses up some of its work. */
  lemma AdvanceWorks(s: State, s': State, t: Thread, next: Id)
    requires Advance(s, s', t, next)
    ensures Work(s'.at) < Work(s.at)
  {
    WorkOfOne(s.at, t);
    OneLess(s, s', t, next);
    if t in s'.at {
      WorkOfOne(s'.at, t);
    }
  }

  ghost predicate Advances(s: State, s': State) {
    exists t, next :: Advance(s, s', t, next)
  }

  /** No schedule can keep the calls in progress busy: without new arrivals every run is short. */
  lemma {:induction false} CallsAreBounded(states: seq<State>)
    requires states != [] && forall i :: 0 <= i < |states| - 1 ==> Advances(states[i], states[i + 1])
    ensures |states| <= Work(states[0].at) + 1
  {
    if |states| > 1 {
      assert Advances(states[0], states[1]);
      var t, next :| Advance(states[0], states[1], t, next);
      AdvanceWorks(states[0], states[1], t, next);
      forall i | 0 <= i < |states| - 2 ensures Advances(states[1..][i], states[1..][i + 1]) {
        assert Advances(states[i + 1], states[i + 2]);
      }
      CallsAreBounded(states[1..]);
    }
  }

  /** And the only state in which such a run can stop is one without calls. */
  lemma {:induction false} AllCanFinish(states: seq<State>) returns (more: seq<State>)
    requires Run(states)
    ensures Run(states + more) && (states + more)[|states + more| - 1].at == map[]
    decreases Work(states[|states| - 1].at)
  {
    var s := states[|states| - 1];
    if s.at == map[] {
      assert states + [] == states;
      return [];
    }
    SomeoneCanStep(states, |states| - 1);
    var t, s', next :| Advance(s, s', t, next);
    AdvanceWorks(s, s', t, next);
    assert Step(s, s');
    more := AllCanFinish(states + [s']);
    assert states + [s'] + more == states + ([s'] + more);
    more := [s'] + more;
  }

  predicate Enters(path: seq<Option<At>>, k: nat, ns: Namespace) {
    k < |path| && path[k].Some? && path[k].value.Inside? && path[k].value.ns == ns
  }

  /** A call is still before its critical section or has been in it. */
  lemma {:induction false} EntersFirst(path: seq<Option<At>>, i: nat, j: nat) returns (k: nat)
    requires Followed(path) && i <= j < |path| && path[i].Some? && BeforeInside(path[i].value)
    ensures
      || (path[j].Some? && BeforeInside(path[j].value) && path[j].value.ns == path[i].value.ns)
      || (i < k <= j && Enters(path, k, path[i].value.ns))
  {
    k := j;
    if j > i {
      assert Follows(path[j - 1], path[j]);
      k := EntersFirst(path, i, j - 1);
      if !(i < k <= j - 1 && Enters(path, k, path[i].value.ns)) { k := j; }
    }
  }

  /** A run that cannot go on has let in every call that was under way. */
  lemma EveryCallEnters(states: seq<State>, i: nat, t: Thread) returns (k: nat)
    requires Run(states) && i < |states| && t in states[i].at && BeforeInside(states[i].at[t])
    requires !CanMove(states[|states| - 1])
    ensures i < k && Enters(Path(states, t), k, states[i].at[t].ns)
  {
    var s := states[|states| - 1];
    if s.at != map[] { SomeoneCanStep(states, |states| - 1); }
    PathIsFollowed(states, t);
    assert Path(states, t)[i] == Where(states[i], t);
    k := EntersFirst(Path(states, t), i, |states| - 1);
  }

  /** And whatever state a run is in, it can go on until every call has been let in. */
  lemma EveryCallCanEnter(states: seq<State>, t: Thread) returns (more: seq<State>, k: nat)
    requires Run(states)
    requires t in states[|states| - 1].at && BeforeInside(states[|states| - 1].at[t])
    ensures Run(states + more) && |states| <= k
    ensures Enters(Path(states + more, t), k, states[|states| - 1].at[t].ns)
  {
    more := AllCanFinish(states);
    var path := Path(states + more, t);
    PathIsFollowed(states + more, t);
    assert path[|states| - 1] == Where(states[|states| - 1], t);
    k := EntersFirst(path, |states| - 1, |path| - 1);
  }
}
