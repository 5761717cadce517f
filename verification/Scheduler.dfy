/** threads/scheduler.cc and threads/process.cc: the priority scheduler and Process::Yield. */
module Schedulers {
  import opened Bytes
  import opened Lists

  /** A process as the scheduler sees it: its identity and its priority, which nothing here changes. */
  datatype Process = Process(pid: nat, priority: int)

  datatype ProcessStatus = JustCreated | Running | Ready | Blocked | Joined

  /** The process with the higher priority comes first. */
  function ProcessComp(x: Process, y: Process): (r: int) {
    if x.priority > y.priority then -1 else if x.priority < y.priority then 1 else 0
  }

  // ---------------------------------------------------------------------
  // Yield, on values
  // ---------------------------------------------------------------------

  datatype Sched = Sched(running: Process, ready: seq<Process>)

  ghost predicate Ok(s: Sched) {
    && Sorted(ProcessComp, s.ready)
    && s.running !in s.ready
    && forall i, j | 0 <= i < j < |s.ready| :: s.ready[i] != s.ready[j]
  }

  function Highest(ready: seq<Process>): (p: int) {
    if ready == [] then -10 else ready[0].priority
  }

  /** The process yields to the first ready one, unless its own priority is higher. */
  function Yielded(s: Sched): (s': Sched) {
    if s.running.priority <= Highest(s.ready) && s.ready != []
    then Sched(s.ready[0], Inserted(ProcessComp, s.ready[1..], s.running))
    else s
  }

  function YieldedTimes(s: Sched, n: nat): (s': Sched)
    decreases n
  {
    if n == 0 then s else YieldedTimes(Yielded(s), n - 1)
  }

  lemma CompIsOrder()
    ensures IsOrder(ProcessComp)
  {
  }

  lemma PutIn<T>(s: seq<T>, k: nat, x: T)
    requires k <= |s| && x !in s && forall i, j | 0 <= i < j < |s| :: s[i] != s[j]
    ensures var r := s[..k] + [x] + s[k..];
            && (forall y :: y in r <==> y == x || y in s)
            && (forall i, j | 0 <= i < j < |r| :: r[i] != r[j])
  {
    assert s == s[..k] + s[k..];
  }

  lemma InsertedMembers(ready: seq<Process>, p: Process)
    requires p !in ready && forall i, j | 0 <= i < j < |ready| :: ready[i] != ready[j]
    ensures forall x :: x in Inserted(ProcessComp, ready, p) <==> x == p || x in ready
    ensures var r := Inserted(ProcessComp, ready, p); forall i, j | 0 <= i < j < |r| :: r[i] != r[j]
  {
    PutIn(ready, Position(ProcessComp, ready, p), p);
  }

  lemma FirstIsHighest(s: Sched)
    requires Ok(s)
    ensures forall p | p in s.ready :: Highest(s.ready) >= p.priority
  {
    forall p | p in s.ready ensures s.ready[0].priority >= p.priority {
      var i :| 0 <= i < |s.ready| && s.ready[i] == p;
      assert i > 0 ==> ProcessComp(s.ready[0], s.ready[i]) <= 0;
    }
  }

  lemma BagsTurn<T>(a: multiset<T>, b: multiset<T>, c: multiset<T>)
    ensures a + (b + c) == c + (a + b)
  {
  }

  lemma YieldConserves(s: Sched)
    requires Ok(s)
    ensures multiset{Yielded(s).running} + multiset(Yielded(s).ready) == multiset{s.running} + multiset(s.ready)
  {
    hide IsOrder;
    CompIsOrder();
    if s.running.priority <= Highest(s.ready) && s.ready != [] {
      var first, rest := s.ready[0], s.ready[1..];
      TailSorted(ProcessComp, s.ready);
      InsertedSorted(ProcessComp, rest, s.running);
      hide Inserted;
      hide Sorted;
      assert s.ready == [first] + rest;
      FrontMultiset(first, rest);
      BagsTurn(multiset{first}, multiset(rest), multiset{s.running});
    }
  }

  lemma YieldKeepsOk(s: Sched)
    requires Ok(s)
    ensures Ok(Yielded(s))
    ensures forall p | p in Yielded(s).ready :: p == s.running || p in s.ready
  {
    hide IsOrder;
    hide Inserted;
    hide Sorted;
    CompIsOrder();
    if s.running.priority <= Highest(s.ready) && s.ready != [] {
      var first, rest := s.ready[0], s.ready[1..];
      TailSorted(ProcessComp, s.ready);
      InsertedSorted(ProcessComp, rest, s.running);
      RestApart(s.ready, s.running);
      InsertedMembers(rest, s.running);
    }
  }

  lemma RestApart(ready: seq<Process>, running: Process)
    requires ready != [] && running !in ready && forall i, j | 0 <= i < j < |ready| :: ready[i] != ready[j]
    ensures ready[0] in ready && ready[0] !in ready[1..] && running !in ready[1..]
    ensures forall p | p in ready[1..] :: p in ready
    ensures forall i, j | 0 <= i < j < |ready[1..]| :: ready[1..][i] != ready[1..][j]
  {
  }

  /** After a yield the running process has at least the priority of every ready one, the processes are those there
      were, and there was a switch exactly if some ready process had at least the priority of the running one. */
  lemma YieldRunsTheHighest(s: Sched)
    requires Ok(s)
    ensures var s' := Yielded(s);
            && Ok(s')
            && (forall p | p in s'.ready :: s'.running.priority >= p.priority)
            && multiset{s'.running} + multiset(s'.ready) == multiset{s.running} + multiset(s.ready)
            && (s'.running != s.running <==> exists p :: p in s.ready && p.priority >= s.running.priority)
  {
    YieldKeepsOk(s);
    YieldConserves(s);
    FirstIsHighest(s);
    hide Inserted;
    if s.ready != [] {
      assert s.ready[0] in s.ready;
    }
    var s' := Yielded(s);
    forall p | p in s'.ready ensures s'.running.priority >= p.priority {
      assert p == s.running || p in s.ready;
    }
  }

  /** A new arrival takes its place in the queue. */
  lemma ArrivalKeepsOk(s: Sched, p: Process)
    requires Ok(s) && p != s.running && p !in s.ready
    ensures Ok(s.(ready := Inserted(ProcessComp, s.ready, p)))
  {
    hide IsOrder;
    CompIsOrder();
    InsertedSorted(ProcessComp, s.ready, p);
    InsertedMembers(s.ready, p);
  }

  /** A process that is not higher than the first k goes behind them. */
  lemma GoesBehind(ready: seq<Process>, p: Process, k: nat)
    requires k <= |ready| && forall i | 0 <= i < k :: ready[i].priority >= p.priority
    ensures Inserted(ProcessComp, ready, p)[..k] == ready[..k]
  {
    assert Position(ProcessComp, ready, p) >= k;
  }

  /** One yield brings those with the highest priority one place nearer. */
  lemma OneNearer(s: Sched, j: nat)
    requires Ok(s) && 0 < j < |s.ready|
    requires s.running.priority <= s.ready[j].priority == Highest(s.ready)
    ensures var s' := Yielded(s);
            && Ok(s') && |s'.ready| == |s.ready|
            && s'.ready[j - 1] == s.ready[j] && s'.running == s.ready[0]
            && s'.running.priority == s'.ready[j - 1].priority == Highest(s'.ready)
  {
    forall i | 0 <= i < j ensures s.ready[i].priority == s.ready[j].priority {
      assert ProcessComp(s.ready[i], s.ready[j]) <= 0;
      assert i > 0 ==> ProcessComp(s.ready[0], s.ready[i]) <= 0;
    }
    YieldKeepsOk(s);
    hide Ok;
    GoesBehind(s.ready[1..], s.running, j);
    hide Inserted;
    var s' := Yielded(s);
    assert s'.ready[..j] == s.ready[1..][..j];
    assert s'.ready[j - 1] == s'.ready[..j][j - 1] == s.ready[j];
    assert s'.ready[0] == s'.ready[..j][0] == s.ready[1];
  }

  /** No starvation among the highest: the process with j equals ahead of it runs after j + 1 yields. */
  lemma {:induction false} RunsWithin(s: Sched, j: nat)
    requires Ok(s) && j < |s.ready|
    requires s.running.priority <= s.ready[j].priority == Highest(s.ready)
    ensures YieldedTimes(s, j + 1).running == s.ready[j]
    decreases j
  {
    hide Ok;
    if j == 0 {
      assert YieldedTimes(s, 1) == YieldedTimes(Yielded(s), 0);
    } else {
      OneNearer(s, j);
      hide Yielded;
      RunsWithin(Yielded(s), j - 1);
    }
  }

  /** The state after k yields among equals: `cycle` are the equals, the running one first. */
  function Turn(cycle: seq<Process>, rest: seq<Process>, k: nat): (s: Sched)
    requires k < |cycle|
  {
    Sched(cycle[k], cycle[k + 1..] + cycle[..k] + rest)
  }

  lemma {:induction false} TurnsFollow(cycle: seq<Process>, rest: seq<Process>, k: nat, n: nat)
    requires k + n < |cycle|
    requires forall i | 0 <= i < |cycle| :: cycle[i].priority == cycle[0].priority
    requires forall i | 0 <= i < |rest| :: rest[i].priority < cycle[0].priority
    ensures YieldedTimes(Turn(cycle, rest, k), n) == Turn(cycle, rest, k + n)
    decreases n
  {
    hide Turn;
    hide Yielded;
    if n > 0 {
      NextTurn(cycle, rest, k);
      TurnsFollow(cycle, rest, k + 1, n - 1);
    }
  }

  lemma InsertedBetween(equals: seq<Process>, rest: seq<Process>, p: Process)
    requires forall i | 0 <= i < |equals| :: equals[i].priority == p.priority
    requires forall i | 0 <= i < |rest| :: rest[i].priority < p.priority
    ensures Inserted(ProcessComp, equals + rest, p) == equals + [p] + rest
  {
    PositionIs(ProcessComp, equals + rest, p, |equals|);
  }

  lemma Rotated<T>(cycle: seq<T>, k: nat)
    requires k < |cycle| && |cycle| > 1
    ensures var others, next := cycle[k + 1..] + cycle[..k], (k + 1) % |cycle|;
            && others[0] == cycle[next]
            && others[1..] + [cycle[k]] == cycle[next + 1..] + cycle[..next]
  {
    var others := cycle[k + 1..] + cycle[..k];
    if k + 1 == |cycle| {
      assert (k + 1) % |cycle| == 0;
      assert others == cycle[..k] && others[1..] + [cycle[k]] == cycle[1..];
    } else {
      assert (k + 1) % |cycle| == k + 1;
      assert others[1..] == cycle[k + 2..] + cycle[..k];
      assert cycle[..k] + [cycle[k]] == cycle[..k + 1];
      assert cycle[k + 2..] + cycle[..k] + [cycle[k]] == cycle[k + 2..] + (cycle[..k] + [cycle[k]]);
    }
  }

  lemma NextTurn(cycle: seq<Process>, rest: seq<Process>, k: nat)
    requires 0 < |cycle| && k < |cycle|
    requires forall i | 0 <= i < |cycle| :: cycle[i].priority == cycle[0].priority
    requires forall i | 0 <= i < |rest| :: rest[i].priority < cycle[0].priority
    ensures Yielded(Turn(cycle, rest, k)) == Turn(cycle, rest, (k + 1) % |cycle|)
  {
    hide Inserted;
    var s := Turn(cycle, rest, k);
    if |cycle| == 1 {
      assert s.ready == rest;
    } else {
      var others := cycle[k + 1..] + cycle[..k];
      assert s.ready == others + rest && s.ready[1..] == others[1..] + rest;
      InsertedBetween(others[1..], rest, cycle[k]);
      Rotated(cycle, k);
    }
  }

  /** Round robin is exact: when the running process and the first m ready ones are the equals of highest priority,
      m + 1 yields bring back the very same state, each of them having run once. */
  lemma RoundRobin(s: Sched, m: nat)
    requires Ok(s) && m <= |s.ready|
    requires forall i | 0 <= i < m :: s.ready[i].priority == s.running.priority
    requires forall i | m <= i < |s.ready| :: s.ready[i].priority < s.running.priority
    ensures YieldedTimes(s, m + 1) == s
    ensures forall k | 1 <= k <= m :: YieldedTimes(s, k).running == s.ready[k - 1]
  {
    var cycle, rest := [s.running] + s.ready[..m], s.ready[m..];
    assert Turn(cycle, rest, 0) == s by {
      assert cycle[1..] + cycle[..0] + rest == s.ready;
    }
    forall k | 1 <= k <= m ensures YieldedTimes(s, k).running == s.ready[k - 1] {
      TurnsFollow(cycle, rest, 0, k);
    }
    TurnsFollow(cycle, rest, 0, m);
    NextTurn(cycle, rest, m);
    LastYield(s, m);
  }

  lemma {:induction false} LastYield(s: Sched, n: nat)
    ensures YieldedTimes(s, n + 1) == Yielded(YieldedTimes(s, n))
    decreases n
  {
    hide Yielded;
    if n > 0 {
      LastYield(Yielded(s), n - 1);
    }
  }

  // ---------------------------------------------------------------------
  // Whole runs
  // ---------------------------------------------------------------------

  /** The running process yields, a process becomes ready (again), or the running one blocks and the next one runs. */
  datatype Event = Yields | Arrives(p: Process) | Blocks

  predicate Possible(s: Sched, e: Event) {
    match e
    case Yields => true
    case Arrives(p) => p != s.running && p !in s.ready
    case Blocks => s.ready != []
  }

  function After(s: Sched, e: Event): (s': Sched)
    requires Possible(s, e)
  {
    match e
    case Yields => Yielded(s)
    case Arrives(p) => s.(ready := Inserted(ProcessComp, s.ready, p))
    case Blocks => Sched(s.ready[0], s.ready[1..])
  }

  ghost predicate IsRun(states: seq<Sched>, events: seq<Event>) {
    && |states| == |events| + 1 && Ok(states[0])
    && forall i | 0 <= i < |events| :: Possible(states[i], events[i]) && states[i + 1] == After(states[i], events[i])
  }

  lemma BlockRunsTheHighest(s: Sched)
    requires Ok(s) && s.ready != []
    ensures var s' := Sched(s.ready[0], s.ready[1..]);
            Ok(s') && forall p | p in s'.ready :: s'.running.priority >= p.priority
  {
    FirstIsHighest(s);
    TailSorted(ProcessComp, s.ready);
    RestApart(s.ready, s.running);
  }

  /** In every run, whoever comes and goes: the list stays sorted and without repetitions, and after each yield, and
      whenever the running process blocks, the one that runs has at least the priority of every ready one. */
  lemma {:induction false} RunsKeepOrder(states: seq<Sched>, events: seq<Event>, k: nat)
    requires IsRun(states, events) && k < |states|
    ensures Ok(states[k])
    ensures k > 0 && !events[k - 1].Arrives? ==>
              forall p | p in states[k].ready :: states[k].running.priority >= p.priority
  {
    hide Ok;
    hide Inserted;
    hide Yielded;
    if k > 0 {
      var s, e := states[k - 1], events[k - 1];
      assert Possible(s, e) && states[k] == After(s, e);
      RunsKeepOrder(states, events, k - 1);
      match e {
        case Yields => YieldRunsTheHighest(s);
        case Arrives(p) => ArrivalKeepsOk(s, p);
        case Blocks => BlockRunsTheHighest(s);
      }
    }
  }

  lemma OkMeans(s: Sched)
    requires Ok(s)
    ensures s.running !in s.ready && (s.ready != [] ==> s.ready[0] != s.running)
  {
  }

  // ---------------------------------------------------------------------
  // The scheduler
  // ---------------------------------------------------------------------

  class Kernel {
    var currentProcess: Process
    var status: map<Process, ProcessStatus>

    constructor (currentProcess: Process)
      ensures this.currentProcess == currentProcess && status == map[currentProcess := Running]
    {
      this.currentProcess := currentProcess;
      status := map[currentProcess := Running];
    }
  }

  class PriorityScheduler {
    const kernel: Kernel
    const readyList: SortedList<Process>
    var toBeDestroyed: Option<Process>
    ghost var Repr: set<object>

    ghost predicate Shape()
      reads this, Repr
    {
      && {this, kernel, readyList.list} <= Repr && (forall n | n in readyList.list.spine :: n in Repr)
      && readyList.list.Valid() && readyList.compare == ProcessComp
    }

    ghost predicate Valid()
      reads this, Repr
    {
      Shape() && Ok(State())
    }

    ghost function State(): Sched
      reads kernel, readyList.list
    {
      Sched(kernel.currentProcess, readyList.list.Contents())
    }

    constructor (kernel: Kernel)
      ensures Valid() && this.kernel == kernel && readyList.list.Contents() == [] && toBeDestroyed == None
      ensures fresh(Repr - {kernel})
    {
      this.kernel := kernel;
      var queue := new SortedList(ProcessComp);
      readyList := queue;
      toBeDestroyed := None;
      Repr := {this, kernel, queue.list};
    }

    method ReadyToRun(process: Process)
      requires Shape() && process !in readyList.list.Contents()
      modifies Repr
      ensures Shape() && fresh(Repr - old(Repr))
      ensures kernel.currentProcess == old(kernel.currentProcess) && toBeDestroyed == old(toBeDestroyed)
      ensures readyList.list.Contents() == Inserted(ProcessComp, old(readyList.list.Contents()), process)
      ensures kernel.status == old(kernel.status)[process := Ready]
    {
      hide Chain;
      hide Items;
      kernel.status := kernel.status[process := Ready];
      readyList.Insert(process);
      Repr := Repr + set n: object | n in readyList.list.spine;
    }

    method HighestPriorityInRQ() returns (priority: int)
      requires Shape()
      ensures priority == Highest(readyList.list.Contents())
    {
      if readyList.list.IsEmpty() {
        return -10;
      } else {
        return readyList.list.first.item.priority;
      }
    }

    method FindNextToRun() returns (next: Option<Process>)
      requires Shape()
      modifies readyList.list
      ensures Shape()
      ensures var ready := old(readyList.list.Contents());
              if ready == [] then next == None && readyList.list.Contents() == []
              else next == Some(ready[0]) && readyList.list.Contents() == ready[1..]
    {
      hide Chain;
      hide Items;
      if readyList.list.IsEmpty() {
        return None;
      } else {
        var p := readyList.list.RemoveFront();
        return Some(p);
      }
    }

    /** Run up to the context switch. */
    method Run(nextProcess: Process, finishing: bool)
      requires Shape() && (finishing ==> toBeDestroyed == None)
      modifies this`toBeDestroyed, kernel
      ensures Shape()
      ensures kernel.currentProcess == nextProcess
      ensures kernel.status == old(kernel.status)[nextProcess := Running]
      ensures toBeDestroyed == if finishing then Some(old(kernel.currentProcess)) else old(toBeDestroyed)
    {
      var oldProcess := kernel.currentProcess;
      if finishing {
        toBeDestroyed := Some(oldProcess);
      }
      kernel.currentProcess := nextProcess;
      kernel.status := kernel.status[nextProcess := Running];
    }

    /** Process::Yield, up to the context switch. */
    method Yield(self: Process)
      requires Valid() && self == kernel.currentProcess
      modifies Repr
      ensures Valid() && State() == Yielded(old(State())) && fresh(Repr - old(Repr))
      ensures toBeDestroyed == old(toBeDestroyed)
      ensures var next := kernel.currentProcess;
              kernel.status == if next == self then old(kernel.status)
                  else old(kernel.status)[self := Ready][next := Running]
    {
      hide Inserted;
      hide Chain;
      hide Items;
      ghost var s := State();
      YieldKeepsOk(s);
      OkMeans(s);
      hide Ok;
      var highest := HighestPriorityInRQ();
      if self.priority <= highest {
        var nextProcess := FindNextToRun();
        if nextProcess.Some? {
          ReadyToRun(self);
          Run(nextProcess.value, false);
        }
      }
      assert State() == Yielded(s);
    }
  }
}
