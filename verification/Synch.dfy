/** threads/synch.cc: counting semaphores. P and V run with interrupts off, so each turn of P's loop and each V is
    one atomic step; between them any thread may run. */
module Semaphores {
  import opened Bytes
  import opened Lists

  type Thread = nat

  /** `queue` holds the threads asleep in P. */
  datatype Sem = Sem(value: int, queue: seq<Thread>)

  /** One turn of the loop of P by `t`: the value is taken, or `t` goes to sleep in the queue. */
  function TryP(sem: Sem, t: Thread): (r: (Sem, bool)) {
    if sem.value == 0 then (sem.(queue := sem.queue + [t]), false) else (sem.(value := sem.value - 1), true)
  }

  function DoV(sem: Sem): (sem': Sem) {
    Sem(sem.value + 1, if sem.queue == [] then [] else sem.queue[1..])
  }

  /** The thread that V makes ready. */
  function Woken(sem: Sem): (r: Option<Thread>) {
    if sem.queue == [] then None else Some(sem.queue[0])
  }

  class Semaphore {
    var value: int
    const queue: List<Thread>

    ghost predicate Valid()
      reads this, queue, queue.spine
    {
      queue.Valid()
    }

    ghost function State(): Sem
      reads this, queue
    {
      Sem(value, queue.Contents())
    }

    constructor (initialValue: int)
      ensures Valid() && State() == Sem(initialValue, [])
      ensures fresh(queue) && queue.spine == []
    {
      value := initialValue;
      queue := new List();
    }

    /** The loop body of P up to Sleep, or the end of P: returns whether the semaphore was taken. */
    method PTurn(currentThread: Thread) returns (taken: bool)
      requires Valid() && currentThread !in queue.Contents()
      modifies this, queue, queue.spine
      ensures Valid() && (State(), taken) == TryP(old(State()), currentThread)
      ensures forall n | n in queue.spine :: n in old(queue.spine) || fresh(n)
    {
      if value == 0 {
        queue.Append(currentThread);
        return false;
      }
      value := value - 1;
      return true;
    }

    method V() returns (ready: Option<Thread>)
      requires Valid()
      modifies this, queue
      ensures Valid() && State() == DoV(old(State())) && ready == Woken(old(State()))
      ensures forall n | n in queue.spine :: n in old(queue.spine)
    {
      hide Chain;
      hide Items;
      ready := None;
      if !queue.IsEmpty() {
        var t := queue.RemoveFront();
        ready := Some(t);
      }
      value := value + 1;
    }
  }

  // ---------------------------------------------------------------------
  // Any number of threads on one semaphore
  // ---------------------------------------------------------------------

  /** Where a thread is: elsewhere, about to run a turn of P, or asleep in it. */
  datatype Place = Elsewhere | InP | Asleep

  /** `ps` and `vs` count the completed operations. */
  datatype System = System(places: map<Thread, Place>, sem: Sem, ps: nat, vs: nat)

  /** V may come from any thread, and from interrupt handlers. */
  datatype Step = CallP(t: Thread) | TurnP(t: Thread) | CallV

  predicate Enabled(s: System, step: Step) {
    match step
    case CallP(t) => t in s.places && s.places[t] == Elsewhere
    case TurnP(t) => t in s.places && s.places[t] == InP
    case CallV => true
  }

  function Next(s: System, step: Step): (s': System)
    requires Enabled(s, step)
  {
    match step
    case CallP(t) => s.(places := s.places[t := InP])
    case TurnP(t) =>
      var (sem, taken) := TryP(s.sem, t);
      if taken then s.(places := s.places[t := Elsewhere], sem := sem, ps := s.ps + 1)
      else s.(places := s.places[t := Asleep], sem := sem)
    case CallV =>
      s.(sem := DoV(s.sem), vs := s.vs + 1,
         places := if Woken(s.sem).Some? then s.places[Woken(s.sem).value := InP] else s.places)
  }

  function Awake(s: System): (ts: set<Thread>) {
    set t | t in s.places && s.places[t] == InP
  }

  /** The value is exact and never negative, the queue holds the sleepers, and no wake-up is lost: while threads
      sleep, whatever value there is has awake threads to take it. */
  ghost predicate Ok(s: System, initialValue: nat) {
    && s.sem.value == initialValue + s.vs - s.ps >= 0
    && (forall t :: t in s.sem.queue <==> t in s.places && s.places[t] == Asleep)
    && (forall i, j | 0 <= i < j < |s.sem.queue| :: s.sem.queue[i] != s.sem.queue[j])
    && (s.sem.queue != [] ==> s.sem.value <= |Awake(s)|)
  }

  lemma CallPKeepsOk(s: System, t: Thread, initialValue: nat)
    requires Ok(s, initialValue) && Enabled(s, CallP(t))
    ensures Ok(Next(s, CallP(t)), initialValue)
  {
    assert Awake(Next(s, CallP(t))) == Awake(s) + {t};
  }

  lemma Joined(q: seq<Thread>, t: Thread)
    requires t !in q && forall i, j | 0 <= i < j < |q| :: q[i] != q[j]
    ensures forall i, j | 0 <= i < j < |q + [t]| :: (q + [t])[i] != (q + [t])[j]
    ensures forall u :: u in q + [t] <==> u in q || u == t
  {
  }

  lemma TurnPKeepsOk(s: System, t: Thread, initialValue: nat)
    requires Ok(s, initialValue) && Enabled(s, TurnP(t))
    ensures Ok(Next(s, TurnP(t)), initialValue)
  {
    var s' := Next(s, TurnP(t));
    assert Awake(s') == Awake(s) - {t};
    Joined(s.sem.queue, t);
  }

  lemma Left(q: seq<Thread>)
    requires q != [] && forall i, j | 0 <= i < j < |q| :: q[i] != q[j]
    ensures forall u :: u in q[1..] <==> u in q && u != q[0]
  {
    assert q == [q[0]] + q[1..];
  }

  lemma CallVKeepsOk(s: System, initialValue: nat)
    requires Ok(s, initialValue) && Enabled(s, CallV)
    ensures Ok(Next(s, CallV), initialValue)
  {
    var s' := Next(s, CallV);
    if s.sem.queue != [] {
      Left(s.sem.queue);
      assert Awake(s') == Awake(s) + {s.sem.queue[0]};
    }
  }

  ghost predicate IsRun(states: seq<System>, steps: seq<Step>) {
    && |states| == |steps| + 1
    && forall i | 0 <= i < |steps| :: Enabled(states[i], steps[i]) && states[i + 1] == Next(states[i], steps[i])
  }

  /** In every state of every interleaving. */
  lemma {:induction false} RunsAreOk(states: seq<System>, steps: seq<Step>, initialValue: nat, k: nat)
    requires IsRun(states, steps) && k < |states|
    requires states[0].sem == Sem(initialValue, []) && states[0].ps == states[0].vs == 0
    requires forall t | t in states[0].places :: states[0].places[t] == Elsewhere
    ensures Ok(states[k], initialValue)
  {
    if k > 0 {
      RunsAreOk(states, steps, initialValue, k - 1);
      match steps[k - 1] {
        case CallP(t) => CallPKeepsOk(states[k - 1], t, initialValue);
        case TurnP(t) => TurnPKeepsOk(states[k - 1], t, initialValue);
        case CallV => CallVKeepsOk(states[k - 1], initialValue);
      }
    }
  }

  // ---------------------------------------------------------------------
  // First come, first served
  // ---------------------------------------------------------------------

  /** If `u` is in the queue at all, `t` is in it before `u`. */
  ghost predicate Ahead(q: seq<Thread>, t: Thread, u: Thread) {
    u in q ==> exists i, j :: 0 <= i < j < |q| && q[i] == t && q[j] == u
  }

  lemma AheadJoined(q: seq<Thread>, t: Thread, u: Thread, x: Thread)
    requires Ahead(q, t, u) && t in q
    ensures Ahead(q + [x], t, u)
  {
    var i :| 0 <= i < |q| && q[i] == t;
    assert (q + [x])[i] == t;
    if u in q {
      var i, j :| 0 <= i < j < |q| && q[i] == t && q[j] == u;
      assert (q + [x])[i] == t && (q + [x])[j] == u;
    } else if u == x {
      assert (q + [x])[|q|] == u;
    }
  }

  lemma AheadLeft(q: seq<Thread>, t: Thread, u: Thread)
    requires q != [] && Ahead(q, t, u) && t in q[1..] && forall i, j | 0 <= i < j < |q| :: q[i] != q[j]
    ensures Ahead(q[1..], t, u) && q[0] != u
  {
    assert q == [q[0]] + q[1..];
    if u in q {
      var i, j :| 0 <= i < j < |q| && q[i] == t && q[j] == u;
      assert i > 0;
      assert q[1..][i - 1] == t && q[1..][j - 1] == u;
    }
  }

  lemma AheadStays(s: System, step: Step, initialValue: nat, t: Thread, u: Thread)
    requires Ok(s, initialValue) && Enabled(s, step) && Ok(Next(s, step), initialValue)
    requires t in s.places && s.places[t] == Asleep && Next(s, step).places[t] == Asleep
    requires u in s.places && Ahead(s.sem.queue, t, u)
    ensures u in Next(s, step).places && Ahead(Next(s, step).sem.queue, t, u)
    ensures s.places[u] == Asleep ==> Next(s, step).places[u] == Asleep
  {
    hide Ahead;
    assert t in s.sem.queue && t in Next(s, step).sem.queue;
    match step {
      case CallP(_) =>
      case TurnP(x) =>
        if s.sem.value == 0 {
          AheadJoined(s.sem.queue, t, u, x);
        }
      case CallV =>
        if s.sem.queue != [] {
          AheadLeft(s.sem.queue, t, u);
        }
    }
  }

  lemma {:induction false} OrderIsKept(states: seq<System>, steps: seq<Step>, initialValue: nat,
                                       t: Thread, u: Thread, from: nat, k: nat)
    requires IsRun(states, steps) && from <= k < |states|
    requires states[0].sem == Sem(initialValue, []) && states[0].ps == states[0].vs == 0
    requires forall x | x in states[0].places :: states[0].places[x] == Elsewhere
    requires forall i | from <= i <= k :: t in states[i].places && states[i].places[t] == Asleep
    requires u in states[from].places && states[from].places[u] != Asleep
    ensures u in states[k].places && Ahead(states[k].sem.queue, t, u)
    ensures k > from && u in states[k - 1].places && states[k - 1].places[u] == Asleep ==> states[k].places[u] == Asleep
  {
    RunsAreOk(states, steps, initialValue, k);
    if k == from {
      assert u !in states[k].sem.queue;
    } else {
      OrderIsKept(states, steps, initialValue, t, u, from, k - 1);
      RunsAreOk(states, steps, initialValue, k - 1);
      hide Ok;
      hide Ahead;
      AheadStays(states[k - 1], steps[k - 1], initialValue, t, u);
    }
  }

  /** In every run threads are woken in the order in which they fell asleep: while `t` sleeps, a thread that has fallen
      asleep after it sleeps on. */
  lemma {:induction false} FirstComeFirstServed(states: seq<System>, steps: seq<Step>, initialValue: nat,
                                                t: Thread, u: Thread, from: nat, m: nat, k: nat)
    requires IsRun(states, steps) && from <= m <= k < |states|
    requires states[0].sem == Sem(initialValue, []) && states[0].ps == states[0].vs == 0
    requires forall x | x in states[0].places :: states[0].places[x] == Elsewhere
    requires forall i | from <= i <= k :: t in states[i].places && states[i].places[t] == Asleep
    requires u in states[from].places && states[from].places[u] != Asleep
    requires u in states[m].places && states[m].places[u] == Asleep
    ensures u in states[k].places && states[k].places[u] == Asleep
  {
    if k > m {
      FirstComeFirstServed(states, steps, initialValue, t, u, from, m, k - 1);
      OrderIsKept(states, steps, initialValue, t, u, from, k);
    }
  }
}
