/** threads/synchlist.cc with the Lock and Condition of threads/synch.cc: all interleavings of threads that append to
    and remove from one synchronized list. Each statement that touches shared data is a step of its own; the list
    and the queue of waiters, which only the lock protects, are read in one step and written back in a later one. */
module SynchLists {
  import opened Bytes
  import opened Semaphores

  type Item = int

  /** A semaphore made by Condition.Wait: the thread that made it, and when. */
  datatype Waiter = Waiter(owner: Thread, serial: nat)

  /** Inside the critical section: the next statement. */
  datatype Inside =
    | AppendLoad(item: Item) | AppendStore(item: Item, seen: seq<Item>)
    | SignalLoad | SignalStore(queue: seq<Waiter>) | SignalV(w: Waiter)
    | Test
    | NewWaiter | EnqueueLoad(w: Waiter) | EnqueueStore(w: Waiter, queue: seq<Waiter>) | DeleteWaiter(w: Waiter)
    | TakeLoad | TakeStore(seen: seq<Item>)

  /** What a thread does once it has released the lock. */
  datatype After = Finish | Sleep(w: Waiter)

  /** Where a thread is. */
  datatype Pc =
    | Outside
    | LockP(k: Inside) | LockAsleep(k: Inside)   // Acquire: in P, or asleep in it
    | SetHolder(k: Inside)                          // Acquire: lockHolder = current thread
    | In(k: Inside)
    | ClearHolder(after: After)                        // Release: lockHolder = NULL
    | LockV(after: After)                              // Release: V
    | WaitP(w: Waiter) | WaitAsleep(w: Waiter)         // Wait: waiter->P

  /** `appended` and `removed` record the history of the list. */
  datatype System = System(
    pcs: map<Thread, Pc>, lock: Sem, holder: Option<Thread>,
    waiters: map<Waiter, Sem>, nextSerial: nat, waitQueue: seq<Waiter>,
    list: seq<Item>, appended: seq<Item>, removed: seq<Item>)

  datatype Call = Append(item: Item) | RemoveFront

  predicate Enabled(s: System, t: Thread) {
    t in s.pcs && !s.pcs[t].LockAsleep? && !s.pcs[t].WaitAsleep?
  }

  /** ReadyToRun: a sleeper will try its P again. */
  function Wake(pc: Pc): (pc': Pc) {
    match pc
    case LockAsleep(k) => LockP(k)
    case WaitAsleep(w) => WaitP(w)
    case _ => pc
  }

  function Ready(pcs: map<Thread, Pc>, woken: Option<Thread>): (pcs': map<Thread, Pc>) {
    if woken.Some? && woken.value in pcs then pcs[woken.value := Wake(pcs[woken.value])] else pcs
  }

  function Go(s: System, t: Thread, pc: Pc): (s': System) {
    s.(pcs := s.pcs[t := pc])
  }

  /** One step of thread `t`; `call` is what it does if it is between calls. */
  function Next(s: System, t: Thread, call: Call): (s': System)
    requires Enabled(s, t)
  {
    match s.pcs[t]
    case Outside => Go(s, t, LockP(match call case Append(x) => AppendLoad(x) case RemoveFront => Test))
    case LockP(k) =>
      var (lock, taken) := TryP(s.lock, t);
      Go(s.(lock := lock), t, if taken then SetHolder(k) else LockAsleep(k))
    case SetHolder(k) => Go(s.(holder := Some(t)), t, In(k))
    case In(k) => NextInside(s, t, k)
    case ClearHolder(after) => Go(s.(holder := None), t, LockV(after))
    case LockV(after) =>
      Go(s.(lock := DoV(s.lock), pcs := Ready(s.pcs, Woken(s.lock))), t,
         match after case Finish => Outside case Sleep(w) => WaitP(w))
    case WaitP(w) =>
      if w !in s.waiters then s  // never: see WaitersOk
      else
        var (sem, taken) := TryP(s.waiters[w], t);
        Go(s.(waiters := s.waiters[w := sem]), t, if taken then LockP(DeleteWaiter(w)) else WaitAsleep(w))
    case _ => s
  }

  function NextInside(s: System, t: Thread, k: Inside): (s': System) {
    match k
    case AppendLoad(x) => Go(s, t, In(AppendStore(x, s.list)))
    case AppendStore(x, seen) => Go(s.(list := seen + [x], appended := s.appended + [x]), t, In(SignalLoad))
    case SignalLoad => Go(s, t, if s.waitQueue == [] then ClearHolder(Finish) else In(SignalStore(s.waitQueue)))
    case SignalStore(queue) =>
      if queue == [] then s  // never: see ViewsOk
      else Go(s.(waitQueue := queue[1..]), t, In(SignalV(queue[0])))
    case SignalV(w) =>
      if w !in s.waiters then s  // never: see WaitersOk
      else
        Go(s.(waiters := s.waiters[w := DoV(s.waiters[w])], pcs := Ready(s.pcs, Woken(s.waiters[w]))), t,
           ClearHolder(Finish))
    case Test => Go(s, t, In(if s.list == [] then NewWaiter else TakeLoad))
    case NewWaiter =>
      var w := Waiter(t, s.nextSerial);
      Go(s.(waiters := s.waiters[w := Sem(0, [])], nextSerial := s.nextSerial + 1), t, In(EnqueueLoad(w)))
    case EnqueueLoad(w) => Go(s, t, In(EnqueueStore(w, s.waitQueue)))
    case EnqueueStore(w, queue) => Go(s.(waitQueue := queue + [w]), t, ClearHolder(Sleep(w)))
    case DeleteWaiter(w) => Go(s.(waiters := s.waiters - {w}), t, In(Test))
    case TakeLoad => Go(s, t, In(TakeStore(s.list)))
    case TakeStore(seen) =>
      if seen == [] then s  // never: see ViewsOk
      else Go(s.(list := seen[1..], removed := s.removed + [seen[0]]), t, ClearHolder(Finish))
  }

  // ---------------------------------------------------------------------
  // The lock
  // ---------------------------------------------------------------------

  /** Between the P and the V on the lock's semaphore. */
  predicate Owns(pc: Pc) {
    pc.SetHolder? || pc.In? || pc.ClearHolder? || pc.LockV?
  }

  /** Between the statements that set and clear lockHolder. */
  predicate Named(pc: Pc) {
    pc.In? || pc.ClearHolder?
  }

  /** `o` owns the lock: nobody else is between P and V, and the value is 0 exactly while there is an owner;
      lockHolder names the owner once it is set and until it is cleared; the queue holds those asleep in Acquire;
      and if the lock is free while some sleep, another thread is on its way in. */
  ghost predicate LockOk(s: System, o: Option<Thread>) {
    && (forall t | t in s.pcs :: Owns(s.pcs[t]) <==> o == Some(t))
    && (o.Some? ==> o.value in s.pcs)
    && s.lock.value == (if o.Some? then 0 else 1)
    && (forall t | t in s.pcs :: Named(s.pcs[t]) <==> s.holder == Some(t))
    && (s.holder.Some? ==> s.holder.value in s.pcs)
    && (forall t :: t in s.lock.queue <==> t in s.pcs && s.pcs[t].LockAsleep?)
    && (forall i, j | 0 <= i < j < |s.lock.queue| :: s.lock.queue[i] != s.lock.queue[j])
    && (s.lock.queue != [] && s.lock.value == 1 ==> exists t :: t in s.pcs && s.pcs[t].LockP?)
  }

  /** As far as the lock is concerned. */
  predicate Alike(pc: Pc, pc': Pc) {
    (Owns(pc) <==> Owns(pc')) && (Named(pc) <==> Named(pc')) && (pc.LockP? <==> pc'.LockP?)
    && (pc.LockAsleep? <==> pc'.LockAsleep?)
  }

  /** Steps that leave the lock alone: every thread stays as it was towards it, or calls Acquire. */
  lemma OtherStep(s: System, s': System, t: Thread, o: Option<Thread>)
    requires LockOk(s, o) && s'.lock == s.lock && s'.holder == s.holder && s'.pcs.Keys == s.pcs.Keys
    requires t in s.pcs && (Alike(s.pcs[t], s'.pcs[t]) || (!Owns(s.pcs[t]) && s'.pcs[t].LockP?
        && !s.pcs[t].LockAsleep?))
    requires forall u | u in s.pcs && u != t :: Alike(s.pcs[u], s'.pcs[u])
    ensures LockOk(s', o)
  {
    forall u | u in s.pcs ensures Owns(s'.pcs[u]) <==> o == Some(u) {
      assert Owns(s.pcs[u]) <==> o == Some(u);
    }
    if s.lock.queue != [] && s.lock.value == 1 {
      var u :| u in s.pcs && s.pcs[u].LockP?;
      assert s'.pcs[u].LockP?;
    }
  }

  lemma AcquireTurn(s: System, t: Thread, o: Option<Thread>) returns (o': Option<Thread>)
    requires LockOk(s, o) && Enabled(s, t) && s.pcs[t].LockP?
    ensures LockOk(Next(s, t, RemoveFront), o')
  {
    o' := if s.lock.value == 0 then o else Some(t);
    Joined(s.lock.queue, t);
  }

  lemma HolderSteps(s: System, t: Thread, o: Option<Thread>)
    requires LockOk(s, o) && Enabled(s, t) && (s.pcs[t].SetHolder? || s.pcs[t].ClearHolder?)
    ensures LockOk(Next(s, t, RemoveFront), o)
  {
    assert o == Some(t);
  }

  lemma ReleaseV(s: System, t: Thread, o: Option<Thread>)
    requires LockOk(s, o) && Enabled(s, t) && s.pcs[t].LockV?
    ensures LockOk(Next(s, t, RemoveFront), None)
  {
    assert o == Some(t);
    var s' := Next(s, t, RemoveFront);
    if s.lock.queue != [] {
      var u := s.lock.queue[0];
      assert u in s.lock.queue;
      Left(s.lock.queue);
      assert s'.pcs[u].LockP?;
    }
  }

  // ---------------------------------------------------------------------
  // The list, under the lock
  // ---------------------------------------------------------------------

  /** The statements that follow an Acquire. */
  predicate Entry(k: Inside) {
    k.AppendLoad? || k.Test? || k.DeleteWaiter?
  }

  /** What a thread knows of the list and the queue of waiters. */
  predicate View(s: System, pc: Pc) {
    match pc
    case LockP(k) => Entry(k)
    case LockAsleep(k) => Entry(k)
    case SetHolder(k) => Entry(k)
    case In(AppendStore(_, seen)) => seen == s.list
    case In(TakeLoad) => s.list != []
    case In(TakeStore(seen)) => seen == s.list != []
    case In(NewWaiter) => s.list == []
    case In(EnqueueLoad(_)) => s.list == []
    case In(EnqueueStore(_, queue)) => s.list == [] && queue == s.waitQueue
    case In(SignalStore(queue)) => queue == s.waitQueue != []
    case _ => true
  }

  /** What was read under the lock is still so when it is used, and the list is first in, first out. */
  ghost predicate ViewsOk(s: System) {
    && (forall t | t in s.pcs :: View(s, s.pcs[t]))
    && s.appended == s.removed + s.list
  }

  lemma OthersOutside(s: System, o: Option<Thread>, t: Thread)
    requires LockOk(s, o) && t in s.pcs && Owns(s.pcs[t])
    ensures forall u | u in s.pcs && u != t :: !Owns(s.pcs[u])
  {
    assert o == Some(t);
  }

  /** Any step keeps the views, because only the owner of the lock touches what they speak of. */
  lemma StepKeepsViews(s: System, t: Thread, call: Call, o: Option<Thread>)
    requires LockOk(s, o) && ViewsOk(s) && Enabled(s, t)
    ensures ViewsOk(Next(s, t, call))
  {
    hide LockOk;
    var s' := Next(s, t, call);
    if s.pcs[t].In? {
      OthersOutside(s, o, t);
      match s.pcs[t].k {
        case TakeStore(seen) => assert s.removed + s.list == s.removed + [seen[0]] + seen[1..];
        case AppendStore(x, seen) => assert s.removed + (s.list + [x]) == s.removed + s.list + [x];
        case _ =>
      }
    }
    forall u | u in s.pcs ensures View(s', s'.pcs[u]) {
      assert View(s, s.pcs[u]);
    }
  }

  // ---------------------------------------------------------------------
  // The waiters
  // ---------------------------------------------------------------------

  /** A thread and its semaphore: it has none; it has one that is not yet in the queue, or whose P is done; or it
      has one from the moment it is in the queue until its P succeeds. */
  datatype Phase = NoWaiter | Holds(w: Waiter) | Waits(w: Waiter, asleep: bool)

  function KeyPhase(k: Inside): (phase: Phase) {
    match k
    case EnqueueLoad(w) => Holds(w)
    case EnqueueStore(w, _) => Holds(w)
    case DeleteWaiter(w) => Holds(w)
    case _ => NoWaiter
  }

  function PhaseOf(pc: Pc): (phase: Phase) {
    match pc
    case LockP(k) => KeyPhase(k)
    case LockAsleep(k) => KeyPhase(k)
    case SetHolder(k) => KeyPhase(k)
    case In(k) => KeyPhase(k)
    case ClearHolder(Sleep(w)) => Waits(w, false)
    case LockV(Sleep(w)) => Waits(w, false)
    case WaitP(w) => Waits(w, false)
    case WaitAsleep(w) => Waits(w, true)
    case _ => NoWaiter
  }

  /** Taken from the queue by a thread that is about to V it. */
  predicate Signalling(s: System, w: Waiter) {
    s.holder.Some? && s.holder.value in s.pcs && s.pcs[s.holder.value] == In(SignalV(w))
  }

  predicate Awaited(s: System, w: Waiter) {
    w.owner in s.pcs && PhaseOf(s.pcs[w.owner]).Waits? && PhaseOf(s.pcs[w.owner]).w == w
  }

  /** Thread `t` and its semaphore: while it waits, the semaphore has the value 1 exactly when its signal has been
      given, so a signal that comes before the P is kept for it; and it sleeps only if there is none. */
  ghost predicate WaiterOk(s: System, t: Thread)
    requires t in s.pcs
  {
    match PhaseOf(s.pcs[t])
    case NoWaiter => true
    case Holds(w) => w.owner == t && w in s.waiters && s.waiters[w] == Sem(0, [])
    case Waits(w, asleep) =>
      && w.owner == t && w in s.waiters
      && s.waiters[w].queue == (if asleep then [t] else [])
      && s.waiters[w].value == (if w in s.waitQueue || Signalling(s, w) then 0 else 1)
      && (asleep ==> s.waiters[w].value == 0)
  }

  ghost predicate WaitersOk(s: System) {
    && (forall t | t in s.pcs :: WaiterOk(s, t))
    && (forall w | w in s.waitQueue :: Awaited(s, w) && !Signalling(s, w))
    && (forall w | Signalling(s, w) :: Awaited(s, w))
    && (forall i, j | 0 <= i < j < |s.waitQueue| :: s.waitQueue[i] != s.waitQueue[j])
  }

  lemma PhaseStep(s: System, s': System)
    requires WaitersOk(s) && s'.pcs.Keys == s.pcs.Keys
    requires forall u | u in s.pcs :: PhaseOf(s.pcs[u]) == PhaseOf(s'.pcs[u])
    requires s'.waiters == s.waiters && s'.waitQueue == s.waitQueue
    requires forall w :: Signalling(s, w) <==> Signalling(s', w)
    ensures WaitersOk(s')
  {
    hide PhaseOf;
    forall t | t in s.pcs ensures WaiterOk(s', t) {
      assert WaiterOk(s, t);
    }
  }

  lemma SignallerIs(s: System, o: Option<Thread>, t: Thread, w: Waiter)
    requires LockOk(s, o) && t in s.pcs && s.pcs[t].In?
    ensures s.holder == Some(t)
    ensures Signalling(s, w) <==> s.pcs[t] == In(SignalV(w))
  {
  }

  lemma NewWaiterStep(s: System, t: Thread, call: Call, o: Option<Thread>)
    requires LockOk(s, o) && WaitersOk(s) && Enabled(s, t) && s.pcs[t] == In(NewWaiter)
    ensures WaitersOk(Next(s, t, call))
  {
    var s' := Next(s, t, call);
    hide LockOk;
    forall w { SignallerIs(s, o, t, w); }
    forall u | u in s.pcs ensures WaiterOk(s', u) {
      assert WaiterOk(s, u);
    }
  }

  lemma EnqueueStep(s: System, t: Thread, call: Call, o: Option<Thread>)
    requires LockOk(s, o) && ViewsOk(s) && WaitersOk(s) && Enabled(s, t) && s.pcs[t].In? && s.pcs[t].k.EnqueueStore?
    ensures WaitersOk(Next(s, t, call))
  {
    var s' := Next(s, t, call);
    var mine := s.pcs[t].k.w;
    forall w { SignallerIs(s, o, t, w); }
    assert View(s, s.pcs[t]) && WaiterOk(s, t);
    hide LockOk;
    hide ViewsOk;
    forall u | u in s.pcs ensures WaiterOk(s', u) {
      assert WaiterOk(s, u);
    }
    assert mine !in s.waitQueue;
  }

  lemma SignalStoreStep(s: System, t: Thread, call: Call, o: Option<Thread>)
    requires LockOk(s, o) && ViewsOk(s) && WaitersOk(s) && Enabled(s, t) && s.pcs[t].In? && s.pcs[t].k.SignalStore?
    ensures WaitersOk(Next(s, t, call))
  {
    var s' := Next(s, t, call);
    forall w { SignallerIs(s, o, t, w); }
    assert View(s, s.pcs[t]);
    hide LockOk;
    hide ViewsOk;
    var first, rest := s.waitQueue[0], s.waitQueue[1..];
    assert s.waitQueue == [first] + rest;
    assert first !in rest && first in s.waitQueue && Awaited(s, first);
    forall w ensures Signalling(s', w) <==> w == first {
    }
    forall w | w in rest ensures Awaited(s', w) {
      assert w in s.waitQueue;
    }
    forall u | u in s.pcs ensures WaiterOk(s', u) {
      assert WaiterOk(s, u);
    }
  }

  lemma SignalVStep(s: System, t: Thread, call: Call, o: Option<Thread>)
    requires LockOk(s, o) && WaitersOk(s) && Enabled(s, t) && s.pcs[t].In? && s.pcs[t].k.SignalV?
    ensures WaitersOk(Next(s, t, call))
  {
    var s' := Next(s, t, call);
    forall w { SignallerIs(s, o, t, w); }
    hide LockOk;
    var woken := s.pcs[t].k.w;
    assert Signalling(s, woken) && Awaited(s, woken) && WaiterOk(s, woken.owner);
    forall u | u in s.pcs ensures WaiterOk(s', u) {
      assert WaiterOk(s, u);
    }
  }

  lemma WaitPStep(s: System, t: Thread, call: Call, o: Option<Thread>)
    requires LockOk(s, o) && WaitersOk(s) && Enabled(s, t) && s.pcs[t].WaitP?
    ensures WaitersOk(Next(s, t, call))
  {
    var s' := Next(s, t, call);
    assert Named(s.pcs[t]) <==> s.holder == Some(t);
    hide LockOk;
    var mine := s.pcs[t].w;
    assert WaiterOk(s, t);
    forall w ensures Signalling(s', w) <==> Signalling(s, w) {
    }
    forall w | Awaited(s, w) && w != mine ensures Awaited(s', w) {
    }
    forall u | u in s.pcs ensures WaiterOk(s', u) {
      assert WaiterOk(s, u);
    }
  }

  lemma DeleteStep(s: System, t: Thread, call: Call, o: Option<Thread>)
    requires LockOk(s, o) && WaitersOk(s) && Enabled(s, t) && s.pcs[t].In? && s.pcs[t].k.DeleteWaiter?
    ensures WaitersOk(Next(s, t, call))
  {
    var s' := Next(s, t, call);
    forall w { SignallerIs(s, o, t, w); }
    hide LockOk;
    assert WaiterOk(s, t);
    forall u | u in s.pcs ensures WaiterOk(s', u) {
      assert WaiterOk(s, u);
    }
  }

  /** The steps that make, use or delete a waiter's semaphore, or move it in the queue. */
  predicate ForWaiters(pc: Pc) {
    pc.WaitP? || (pc.In? && (pc.k.NewWaiter? || pc.k.EnqueueStore? || pc.k.SignalStore? || pc.k.SignalV?
        || pc.k.DeleteWaiter?))
  }

  /** Only a V changes the place of another thread. */
  lemma OthersStill(s: System, t: Thread, call: Call)
    requires Enabled(s, t) && !s.pcs[t].LockV? && !(s.pcs[t].In? && s.pcs[t].k.SignalV?)
    ensures Next(s, t, call).pcs == s.pcs[t := Next(s, t, call).pcs[t]]
  {
  }

  lemma OthersWoken(s: System, t: Thread, call: Call, o: Option<Thread>)
    requires LockOk(s, o) && Enabled(s, t) && s.pcs[t].LockV?
    ensures forall u | u in s.pcs && u != t :: Next(s, t, call).pcs[u] == s.pcs[u]
              || (s.pcs[u].LockAsleep? && Next(s, t, call).pcs[u] == LockP(s.pcs[u].k))
  {
    if s.lock.queue != [] {
      assert s.lock.queue[0] in s.lock.queue;
    }
  }

  lemma OwnPhase(s: System, t: Thread, call: Call)
    requires Enabled(s, t) && !ForWaiters(s.pcs[t])
    ensures PhaseOf(Next(s, t, call).pcs[t]) == PhaseOf(s.pcs[t])
  {
  }

  lemma SameSignal(s: System, t: Thread, call: Call, o: Option<Thread>, w: Waiter)
    requires LockOk(s, o) && ViewsOk(s) && Enabled(s, t) && !ForWaiters(s.pcs[t])
    ensures Signalling(s, w) <==> Signalling(Next(s, t, call), w)
  {
    assert View(s, s.pcs[t]);
  }

  lemma PlainStep(s: System, t: Thread, call: Call, o: Option<Thread>)
    requires LockOk(s, o) && ViewsOk(s) && WaitersOk(s) && Enabled(s, t) && !ForWaiters(s.pcs[t])
    ensures WaitersOk(Next(s, t, call))
  {
    hide WaitersOk;
    hide LockOk;
    hide ViewsOk;
    hide Signalling;
    var s' := Next(s, t, call);
    assert s'.waiters == s.waiters && s'.waitQueue == s.waitQueue && s'.pcs.Keys == s.pcs.Keys;
    OwnPhase(s, t, call);
    if s.pcs[t].LockV? {
      OthersWoken(s, t, call, o);
    } else {
      OthersStill(s, t, call);
    }
    forall w { SameSignal(s, t, call, o, w); }
    hide Next;
    PhaseStep(s, s');
  }

  lemma StepKeepsWaiters(s: System, t: Thread, call: Call, o: Option<Thread>)
    requires LockOk(s, o) && ViewsOk(s) && WaitersOk(s) && Enabled(s, t)
    ensures WaitersOk(Next(s, t, call))
  {
    hide LockOk;
    hide ViewsOk;
    hide WaitersOk;
    hide Next;
    var pc := s.pcs[t];
    if !ForWaiters(pc) {
      PlainStep(s, t, call, o);
    } else if pc.WaitP? {
      WaitPStep(s, t, call, o);
    } else if pc.k.NewWaiter? {
      NewWaiterStep(s, t, call, o);
    } else if pc.k.EnqueueStore? {
      EnqueueStep(s, t, call, o);
    } else if pc.k.SignalStore? {
      SignalStoreStep(s, t, call, o);
    } else if pc.k.SignalV? {
      SignalVStep(s, t, call, o);
    } else {
      DeleteStep(s, t, call, o);
    }
  }

  lemma SignalWakes(s: System, t: Thread, call: Call, o: Option<Thread>)
    requires LockOk(s, o) && WaitersOk(s) && Enabled(s, t) && s.pcs[t].In? && s.pcs[t].k.SignalV?
    ensures var w, s' := s.pcs[t].k.w, Next(s, t, call);
            && w.owner in s.pcs && w.owner != t && w in s.waiters && s.waiters[w].value == 0
            && (s.pcs[w.owner].WaitAsleep? <==> s.waiters[w].queue == [w.owner])
            && s'.pcs == s.pcs[w.owner := Wake(s.pcs[w.owner])][t := ClearHolder(Finish)]
            && s'.waiters == s.waiters[w := DoV(s.waiters[w])]
            && PhaseOf(s.pcs[w.owner]).Waits? && PhaseOf(s.pcs[w.owner]).w == w
  {
    SignallerIs(s, o, t, s.pcs[t].k.w);
    assert Awaited(s, s.pcs[t].k.w) && WaiterOk(s, s.pcs[t].k.w.owner);
  }

  lemma StepKeepsLock(s: System, t: Thread, call: Call, o: Option<Thread>) returns (o': Option<Thread>)
    requires LockOk(s, o) && WaitersOk(s) && Enabled(s, t)
    ensures LockOk(Next(s, t, call), o')
  {
    hide LockOk;
    hide WaitersOk;
    o' := o;
    if s.pcs[t].LockP? {
      hide Next;
      o' := AcquireTurn(s, t, o);
      SameCall(s, t, call);
    } else if s.pcs[t].SetHolder? || s.pcs[t].ClearHolder? {
      hide Next;
      HolderSteps(s, t, o);
      SameCall(s, t, call);
    } else if s.pcs[t].LockV? {
      hide Next;
      ReleaseV(s, t, o);
      SameCall(s, t, call);
      o' := None;
    } else if s.pcs[t].In? && s.pcs[t].k.SignalV? {
      SignalWakes(s, t, call, o);
      OtherStep(s, Next(s, t, call), t, o);
    } else {
      OthersStill(s, t, call);
      OtherStep(s, Next(s, t, call), t, o);
    }
  }

  lemma SameCall(s: System, t: Thread, call: Call)
    requires Enabled(s, t) && s.pcs[t] != Outside
    ensures Next(s, t, call) == Next(s, t, RemoveFront)
  {
  }

  // ---------------------------------------------------------------------
  // No item is left behind
  // ---------------------------------------------------------------------

  /** On its way to an item: a remover that is not waiting, or whose signal has been given; or an appender that has
      yet to give its signal. */
  predicate Active(s: System, pc: Pc) {
    match pc
    case LockP(k) => k.Test? || k.DeleteWaiter?
    case LockAsleep(k) => k.Test? || k.DeleteWaiter?
    case SetHolder(k) => k.Test? || k.DeleteWaiter?
    case In(k) => k.Test? || k.DeleteWaiter? || k.TakeLoad? || k.TakeStore? || k.SignalLoad? || k.SignalStore?
        || k.SignalV?
    case _ => PhaseOf(pc).Waits? && Signalled(s, PhaseOf(pc).w)
  }

  predicate Signalled(s: System, w: Waiter) {
    w in s.waiters && s.waiters[w].value > 0
  }

  function ActiveThreads(s: System): (ts: set<Thread>) {
    set t | t in s.pcs && Active(s, s.pcs[t])
  }

  /** While anyone waits to be signalled, there are no more items than threads on their way to one. */
  ghost predicate ProgressOk(s: System) {
    s.waitQueue != [] ==> |s.list| <= |ActiveThreads(s)|
  }

  /** Others are as active as they were, unless their signal was just given. */
  lemma OthersActive(s: System, t: Thread, call: Call, o: Option<Thread>, u: Thread)
    requires LockOk(s, o) && WaitersOk(s) && Enabled(s, t) && u in s.pcs && u != t
    requires !(s.pcs[t].In? && s.pcs[t].k.SignalV?)
    ensures Active(Next(s, t, call), Next(s, t, call).pcs[u]) == Active(s, s.pcs[u])
  {
    assert WaiterOk(s, u) && WaiterOk(s, t);
    hide WaitersOk;
    if s.pcs[t].LockV? {
      OthersWoken(s, t, call, o);
    } else {
      OthersStill(s, t, call);
    }
    hide LockOk;
  }

  /** How the step changes the number of items, and whether its thread is active. */
  lemma OwnActive(s: System, t: Thread, call: Call, o: Option<Thread>)
    requires LockOk(s, o) && ViewsOk(s) && WaitersOk(s) && Enabled(s, t)
    requires !(s.pcs[t].In? && s.pcs[t].k.SignalV?)
    ensures var s' := Next(s, t, call);
            var before, after := if Active(s, s.pcs[t]) then 1 else 0, if Active(s', s'.pcs[t]) then 1 else 0;
            s'.waitQueue == [] || s'.list == []
            || (s.waitQueue != [] && |s'.list| - |s.list| <= after - before)
  {
    assert View(s, s.pcs[t]) && WaiterOk(s, t);
    hide WaitersOk;
    hide LockOk;
    hide ViewsOk;
  }

  lemma CountWithout(ts: set<Thread>, t: Thread)
    ensures |ts| == |ts - {t}| + if t in ts then 1 else 0
  {
    if t in ts {
      assert ts == (ts - {t}) + {t};
    } else {
      assert ts == ts - {t};
    }
  }

  lemma OtherThreadsActive(s: System, t: Thread, call: Call, o: Option<Thread>)
    requires LockOk(s, o) && WaitersOk(s) && Enabled(s, t)
    requires !(s.pcs[t].In? && s.pcs[t].k.SignalV?)
    ensures ActiveThreads(Next(s, t, call)) - {t} == ActiveThreads(s) - {t}
  {
    var s' := Next(s, t, call);
    assert s'.pcs.Keys == s.pcs.Keys;
    hide Next;
    hide Active;
    hide LockOk;
    hide WaitersOk;
    forall u | u in s.pcs && u != t ensures Active(s', s'.pcs[u]) == Active(s, s.pcs[u]) {
      OthersActive(s, t, call, o, u);
    }
  }

  lemma StepKeepsProgress(s: System, t: Thread, call: Call, o: Option<Thread>)
    requires LockOk(s, o) && ViewsOk(s) && WaitersOk(s) && ProgressOk(s) && Enabled(s, t)
    ensures ProgressOk(Next(s, t, call))
  {
    hide WaitersOk;
    hide LockOk;
    hide ViewsOk;
    hide Active;
    hide Next;
    var s' := Next(s, t, call);
    KeysKept(s, t, call);
    CountWithout(ActiveThreads(s), t);
    CountWithout(ActiveThreads(s'), t);
    if s.pcs[t].In? && s.pcs[t].k.SignalV? {
      SignalActive(s, t, call, o);
      hide ActiveThreads;
      CountWithout(ActiveThreads(s) - {t} + {s.pcs[t].k.w.owner}, s.pcs[t].k.w.owner);
      assert ActiveThreads(s) - {t} + {s.pcs[t].k.w.owner} - {s.pcs[t].k.w.owner} == ActiveThreads(s) - {t};
    } else {
      OwnActive(s, t, call, o);
      OtherThreadsActive(s, t, call, o);
    }
  }

  lemma KeysKept(s: System, t: Thread, call: Call)
    requires Enabled(s, t)
    ensures Next(s, t, call).pcs.Keys == s.pcs.Keys
    ensures s.pcs[t].In? && s.pcs[t].k.SignalV? ==>
              Next(s, t, call).list == s.list && Next(s, t, call).waitQueue == s.waitQueue
  {
  }

  /** A signal given: the signaller is done, and its waiter is on its way instead. */
  lemma SignalActive(s: System, t: Thread, call: Call, o: Option<Thread>)
    requires LockOk(s, o) && WaitersOk(s) && Enabled(s, t) && s.pcs[t].In? && s.pcs[t].k.SignalV?
    ensures s.pcs[t].k.w.owner !in ActiveThreads(s) && t in ActiveThreads(s)
    ensures ActiveThreads(Next(s, t, call)) == ActiveThreads(s) - {t} + {s.pcs[t].k.w.owner}
  {
    var s', w := Next(s, t, call), s.pcs[t].k.w;
    SignalWakes(s, t, call, o);
    forall u | u in s.pcs ensures WaiterOk(s, u) {
    }
    hide WaitersOk;
    hide LockOk;
    hide Next;
    forall u | u in s.pcs && u != t && u != w.owner ensures Active(s', s'.pcs[u]) == Active(s, s.pcs[u]) {
      assert WaiterOk(s, u);
    }
  }

  // ---------------------------------------------------------------------
  // Every interleaving
  // ---------------------------------------------------------------------

  ghost predicate Safe(s: System, o: Option<Thread>) {
    LockOk(s, o) && ViewsOk(s) && WaitersOk(s) && ProgressOk(s)
  }

  predicate Initial(s: System) {
    && (forall t | t in s.pcs :: s.pcs[t] == Outside)
    && s.lock == Sem(1, []) && s.holder == None && s.waiters == map[] && s.waitQueue == []
    && s.list == s.appended == s.removed == []
  }

  datatype Move = Move(t: Thread, call: Call)

  ghost predicate IsRun(states: seq<System>, moves: seq<Move>) {
    && |states| == |moves| + 1 && Initial(states[0])
    && forall i | 0 <= i < |moves| ::
         Enabled(states[i], moves[i].t) && states[i + 1] == Next(states[i], moves[i].t, moves[i].call)
  }

  lemma {:induction false} RunsAreSafe(states: seq<System>, moves: seq<Move>, k: nat) returns (o: Option<Thread>)
    requires IsRun(states, moves) && k < |states|
    ensures Safe(states[k], o)
  {
    if k == 0 {
      o := None;
    } else {
      var s, m := states[k - 1], moves[k - 1];
      assert Enabled(s, m.t) && states[k] == Next(s, m.t, m.call);
      o := RunsAreSafe(states, moves, k - 1);
      hide Next;
      hide LockOk;
      hide ViewsOk;
      hide WaitersOk;
      hide ProgressOk;
      StepKeepsViews(s, m.t, m.call, o);
      StepKeepsWaiters(s, m.t, m.call, o);
      StepKeepsProgress(s, m.t, m.call, o);
      o := StepKeepsLock(s, m.t, m.call, o);
    }
  }

  /** What the source asserts at the statement where the thread is: IsHeldByCurrentThread in Release, Wait and
      Signal, a list that is not empty in RemoveFront, a thread that is not yet in the queue in P; and that the
      waiter's semaphore has not been deleted. */
  predicate AssertionsHold(s: System, t: Thread)
    requires t in s.pcs
  {
    match s.pcs[t]
    case LockP(_) => t !in s.lock.queue
    case ClearHolder(_) => s.holder == Some(t)
    case WaitP(w) => w in s.waiters && t !in s.waiters[w].queue
    case In(SignalLoad) => s.holder == Some(t)
    case In(SignalStore(queue)) => queue != []
    case In(SignalV(w)) => w in s.waiters
    case In(NewWaiter) => s.holder == Some(t)
    case In(TakeStore(seen)) => seen != []
    case In(DeleteWaiter(w)) => w in s.waiters && s.waiters[w].queue == []
    case _ => true
  }

  /** What the invariant says of the lock: one owner at most, exactly one while the value is 0, and lockHolder is
      that owner from when it is set to when it is cleared. */
  ghost predicate LockIsExclusive(s: System) {
    && (forall t, u | t in s.pcs && u in s.pcs && Owns(s.pcs[t]) && Owns(s.pcs[u]) :: t == u)
    && (s.lock.value == 0 || s.lock.value == 1)
    && (s.lock.value == 0 <==> exists t :: t in s.pcs && Owns(s.pcs[t]))
    && (forall t :: s.holder == Some(t) <==> t in s.pcs && Named(s.pcs[t]))
  }

  lemma LockOkIsExclusive(s: System, o: Option<Thread>)
    requires LockOk(s, o)
    ensures LockIsExclusive(s)
  {
    if o.Some? {
      assert Owns(s.pcs[o.value]);
    }
  }

  /** In every state of every interleaving: the lock has at most one owner, and a non-null lockHolder is that owner;
      no assertion fails; what was removed is a prefix of what was appended with the list as the rest; and no one who
      has been signalled is still asleep. */
  lemma SynchListIsFifo(states: seq<System>, moves: seq<Move>, k: nat)
    requires IsRun(states, moves) && k < |states|
    ensures var s := states[k];
            && LockIsExclusive(s)
            && (forall t | t in s.pcs :: AssertionsHold(s, t))
            && s.appended == s.removed + s.list
            && (forall t | t in s.pcs && s.pcs[t].WaitAsleep? :: !Signalled(s, s.pcs[t].w))
            && (s.waitQueue != [] ==> |s.list| <= |ActiveThreads(s)|)
  {
    hide Next;
    hide LockIsExclusive;
    var o := RunsAreSafe(states, moves, k);
    var s := states[k];
    LockOkIsExclusive(s, o);
    forall t | t in s.pcs ensures AssertionsHold(s, t) {
      assert View(s, s.pcs[t]) && WaiterOk(s, t);
      if s.pcs[t].In? && s.pcs[t].k.SignalV? {
        SignallerIs(s, o, t, s.pcs[t].k.w);
        assert Awaited(s, s.pcs[t].k.w) && WaiterOk(s, s.pcs[t].k.w.owner);
      }
    }
    forall t | t in s.pcs && s.pcs[t].WaitAsleep? ensures !Signalled(s, s.pcs[t].w) {
      assert WaiterOk(s, t);
    }
  }

  // ---------------------------------------------------------------------
  // No signal is lost
  // ---------------------------------------------------------------------

  /** The signal has been given and its waiter has yet to take it. */
  ghost predicate SignalWaits(s: System, w: Waiter) {
    Awaited(s, w) && Signalled(s, w)
  }

  lemma OthersSignalsKeep(s: System, t: Thread, call: Call, o: Option<Thread>, w: Waiter)
    requires Safe(s, o) && Enabled(s, t) && SignalWaits(s, w) && s.pcs[t].In? && s.pcs[t].k.SignalV?
    ensures SignalWaits(Next(s, t, call), w)
  {
    SignalWakes(s, t, call, o);
    assert WaiterOk(s, w.owner);
    hide LockOk;
    hide WaitersOk;
    hide ViewsOk;
    hide Next;
  }

  lemma ReleasesKeep(s: System, t: Thread, call: Call, o: Option<Thread>, w: Waiter)
    requires Safe(s, o) && Enabled(s, t) && SignalWaits(s, w) && s.pcs[t].LockV?
    ensures SignalWaits(Next(s, t, call), w)
  {
    assert WaiterOk(s, w.owner) && WaiterOk(s, t);
    OthersWoken(s, t, call, o);
    hide LockOk;
    hide WaitersOk;
    hide ViewsOk;
  }

  lemma WaitersTurn(s: System, t: Thread, call: Call, o: Option<Thread>, w: Waiter)
    requires Safe(s, o) && Enabled(s, t) && SignalWaits(s, w) && s.pcs[t].WaitP?
    ensures if s.pcs[t].w == w then t == w.owner && Next(s, t, call).pcs[t] == LockP(DeleteWaiter(w))
            else SignalWaits(Next(s, t, call), w)
  {
    assert WaiterOk(s, w.owner) && WaiterOk(s, t);
    hide LockOk;
    hide WaitersOk;
    hide ViewsOk;
  }

  lemma OtherStepsKeep(s: System, t: Thread, call: Call, o: Option<Thread>, w: Waiter)
    requires Safe(s, o) && Enabled(s, t) && SignalWaits(s, w)
    requires !(s.pcs[t].In? && s.pcs[t].k.SignalV?) && !s.pcs[t].LockV? && !s.pcs[t].WaitP?
    ensures SignalWaits(Next(s, t, call), w)
  {
    assert WaiterOk(s, w.owner) && WaiterOk(s, t);
    OthersStill(s, t, call);
    hide LockOk;
    hide WaitersOk;
    hide ViewsOk;
  }

  /** One step: the signal stays for the waiter, or it is the waiter's P, which takes it. */
  lemma SignalIsKept(s: System, t: Thread, call: Call, o: Option<Thread>, w: Waiter)
    requires Safe(s, o) && Enabled(s, t) && SignalWaits(s, w)
    ensures if s.pcs[t] == WaitP(w) then t == w.owner && Next(s, t, call).pcs[t] == LockP(DeleteWaiter(w))
            else SignalWaits(Next(s, t, call), w)
  {
    hide Safe;
    hide SignalWaits;
    hide Next;
    if s.pcs[t].In? && s.pcs[t].k.SignalV? {
      OthersSignalsKeep(s, t, call, o, w);
    } else if s.pcs[t].LockV? {
      ReleasesKeep(s, t, call, o, w);
    } else if s.pcs[t].WaitP? {
      WaitersTurn(s, t, call, o, w);
    } else {
      OtherStepsKeep(s, t, call, o, w);
    }
  }

  lemma SignalIsGiven(s: System, t: Thread, call: Call, o: Option<Thread>, w: Waiter)
    requires Safe(s, o) && Enabled(s, t) && s.pcs[t] == In(SignalV(w))
    ensures SignalWaits(Next(s, t, call), w)
  {
    SignalWakes(s, t, call, o);
    hide LockOk;
    hide WaitersOk;
    hide ViewsOk;
    hide Next;
  }

  /** In every run: from the step that gives a signal, between Wait's release of the lock and its P or later, the
      signal stays there through every step of every thread, until the P of the waiter, which takes it at once. */
  lemma {:induction false} SignalIsNotLost(states: seq<System>, moves: seq<Move>, w: Waiter, i: nat, j: nat)
    requires IsRun(states, moves) && i < j <= |moves|
    requires Enabled(states[i], moves[i].t) && states[i].pcs[moves[i].t] == In(SignalV(w))
    requires forall k | i < k < j :: Enabled(states[k], moves[k].t) ==> states[k].pcs[moves[k].t] != WaitP(w)
    ensures SignalWaits(states[j], w)
    ensures j < |moves| ==> Enabled(states[j], moves[j].t)
    ensures j < |moves| && states[j].pcs[moves[j].t] == WaitP(w) ==>
              moves[j].t == w.owner && w.owner in states[j + 1].pcs
                  && states[j + 1].pcs[w.owner] == LockP(DeleteWaiter(w))
    decreases j
  {
    hide Safe;
    hide SignalWaits;
    hide Initial;
    var s, m := states[j - 1], moves[j - 1];
    assert Enabled(s, m.t) && states[j] == Next(s, m.t, m.call);
    var o := RunsAreSafe(states, moves, j - 1);
    if j == i + 1 {
      hide Next;
      SignalIsGiven(s, m.t, m.call, o, w);
    } else {
      hide Next;
      SignalIsNotLost(states, moves, w, i, j - 1);
      SignalIsKept(s, m.t, m.call, o, w);
    }
    if j < |moves| && states[j].pcs[moves[j].t] == WaitP(w) {
      var o' := RunsAreSafe(states, moves, j);
      SignalIsKept(states[j], moves[j].t, moves[j].call, o', w);
      KeysKept(states[j], moves[j].t, moves[j].call);
    }
  }

  // ---------------------------------------------------------------------
  // Signals go to the waiters in the order in which they began to wait
  // ---------------------------------------------------------------------

  /** If `v` is in the queue at all, `w` is in it before `v`. */
  ghost predicate Before(queue: seq<Waiter>, w: Waiter, v: Waiter) {
    v in queue ==> exists i, j :: 0 <= i < j < |queue| && queue[i] == w && queue[j] == v
  }

  lemma BeforeJoined(queue: seq<Waiter>, w: Waiter, v: Waiter, x: Waiter)
    requires Before(queue, w, v) && w in queue
    ensures Before(queue + [x], w, v)
  {
    var i :| 0 <= i < |queue| && queue[i] == w;
    assert (queue + [x])[i] == w;
    if v in queue {
      var i, j :| 0 <= i < j < |queue| && queue[i] == w && queue[j] == v;
      assert (queue + [x])[i] == w && (queue + [x])[j] == v;
    } else if v == x {
      assert (queue + [x])[|queue|] == v;
    }
  }

  lemma BeforeLeft(queue: seq<Waiter>, w: Waiter, v: Waiter)
    requires queue != [] && Before(queue, w, v) && w in queue[1..]
    requires forall i, j | 0 <= i < j < |queue| :: queue[i] != queue[j]
    ensures Before(queue[1..], w, v) && queue[0] != v
  {
    assert queue == [queue[0]] + queue[1..];
    if v in queue {
      var i, j :| 0 <= i < j < |queue| && queue[i] == w && queue[j] == v;
      assert i > 0;
      assert queue[1..][i - 1] == w && queue[1..][j - 1] == v;
    }
  }

  /** The queue changes at its two ends only: a signal takes the first waiter, and Wait puts one at the back. */
  lemma QueueStep(s: System, t: Thread, call: Call, o: Option<Thread>)
    requires Safe(s, o) && Enabled(s, t)
    ensures var queue, queue' := s.waitQueue, Next(s, t, call).waitQueue;
            || queue' == queue
            || (queue != [] && queue' == queue[1..])
            || exists x :: queue' == queue + [x]
  {
    assert View(s, s.pcs[t]);
    hide LockOk;
    hide WaitersOk;
    if s.pcs[t].In? && s.pcs[t].k.EnqueueStore? {
      assert Next(s, t, call).waitQueue == s.waitQueue + [s.pcs[t].k.w];
    }
  }

  lemma BeforeStays(s: System, t: Thread, call: Call, o: Option<Thread>, w: Waiter, v: Waiter)
    requires Safe(s, o) && Enabled(s, t)
    requires w in s.waitQueue && w in Next(s, t, call).waitQueue && Before(s.waitQueue, w, v)
    ensures Before(Next(s, t, call).waitQueue, w, v)
    ensures v in s.waitQueue ==> v in Next(s, t, call).waitQueue
  {
    QueueStep(s, t, call, o);
    hide Next;
    hide LockOk;
    hide ViewsOk;
    hide Before;
    var queue, queue' := s.waitQueue, Next(s, t, call).waitQueue;
    if queue != [] && queue' == queue[1..] {
      BeforeLeft(queue, w, v);
      assert queue == [queue[0]] + queue[1..];
    } else if x :| queue' == queue + [x] {
      BeforeJoined(queue, w, v, x);
    }
  }

  lemma {:induction false} WaitersKeepTheirOrder(states: seq<System>, moves: seq<Move>, w: Waiter, v: Waiter,
                                                 from: nat, k: nat)
    requires IsRun(states, moves) && from <= k < |states|
    requires forall i | from <= i <= k :: w in states[i].waitQueue
    requires v !in states[from].waitQueue
    ensures Before(states[k].waitQueue, w, v)
    ensures k > from && v in states[k - 1].waitQueue ==> v in states[k].waitQueue
  {
    hide Next;
    hide Safe;
    if k > from {
      WaitersKeepTheirOrder(states, moves, w, v, from, k - 1);
      hide Before;
      var s, move := states[k - 1], moves[k - 1];
      var o := RunsAreSafe(states, moves, k - 1);
      assert Enabled(s, move.t) && states[k] == Next(s, move.t, move.call);
      BeforeStays(s, move.t, move.call, o, w, v);
    }
  }

  /** In every run signals are given in the order in which the waiters came: while `w` has not been taken from the queue
      to be signalled, a waiter that has come after it is not either. */
  lemma {:induction false} SignalsAreFifo(states: seq<System>, moves: seq<Move>, w: Waiter, v: Waiter,
                                          from: nat, m: nat, k: nat)
    requires IsRun(states, moves) && from <= m <= k < |states|
    requires forall i | from <= i <= k :: w in states[i].waitQueue
    requires v !in states[from].waitQueue && v in states[m].waitQueue
    ensures v in states[k].waitQueue
  {
    hide IsRun;
    if k > m {
      SignalsAreFifo(states, moves, w, v, from, m, k - 1);
      WaitersKeepTheirOrder(states, moves, w, v, from, k);
    }
  }
}
