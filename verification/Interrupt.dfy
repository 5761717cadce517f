/** machine/interrupt.cc: simulated time, and the sorted queue of interrupts that handlers may add to. */
module Interrupts {
  import opened Lists

  const USER_TICK := 1
  const SYSTEM_TICK := 10

  datatype IntStatus = IntOff | IntOn
  datatype MachineStatus = IdleMode | SystemMode | UserMode
  datatype IntType = TimerInt | DiskInt | ConsoleWriteInt | ConsoleReadInt | NetworkSendInt | NetworkRecvInt

  /** `serial` stands for the identity of the object: every `new PendingInterrupt` gets the next one. */
  datatype PendingInterrupt = PendingInterrupt(callBack: int, when: int, kind: IntType, serial: nat)

  /** Schedule asserts that the delay is positive. */
  type Delay = n: int | n > 0 witness 1

  datatype Request = Request(callBack: int, fromNow: Delay, kind: IntType)

  /** What a handler may do to the simulation: schedule more interrupts, and ask for a context switch. */
  datatype Effects = Effects(requests: seq<Request>, yieldOnReturn: bool)

  /** Any behaviour of the device handlers: each interrupt is a different object, and is handled once. */
  type Handlers = PendingInterrupt -> Effects

  function PendingCompare(x: PendingInterrupt, y: PendingInterrupt): (r: int) {
    if x.when < y.when then -1 else if x.when > y.when then 1 else 0
  }

  /** Due earlier, or due together and scheduled earlier. */
  predicate Before(x: PendingInterrupt, y: PendingInterrupt) {
    x.when < y.when || (x.when == y.when && x.serial < y.serial)
  }

  ghost predicate InOrder(s: seq<PendingInterrupt>) {
    forall i, j | 0 <= i < j < |s| :: Before(s[i], s[j])
  }

  // ---------------------------------------------------------------------
  // The simulation as a value
  // ---------------------------------------------------------------------

  datatype Ticks = Ticks(total: int, idle: int, system: int, user: int)

  /** A call of a handler: when it was, and how many interrupts had been scheduled before it. */
  datatype Fired = Fired(interrupt: PendingInterrupt, at: int, known: nat)

  /** `scheduled` lists every interrupt ever scheduled, and `log` every handler called, in order. */
  datatype Sim = Sim(ticks: Ticks, pending: seq<PendingInterrupt>, scheduled: seq<PendingInterrupt>, log: seq<Fired>,
                     yieldOnReturn: bool)

  function Logged(log: seq<Fired>): (s: seq<PendingInterrupt>)
    ensures |s| == |log| && forall i | 0 <= i < |s| :: s[i] == log[i].interrupt
  {
    seq(|log|, i requires 0 <= i < |log| => log[i].interrupt)
  }

  /** The invariant. Read the log and then the queue: all that was ever scheduled is there exactly once, by due time
      and then by time of scheduling. No handler was called before its time, nor a system tick late. */
  ghost predicate Ok(sim: Sim) {
    && InOrder(Logged(sim.log) + sim.pending)
    && multiset(Logged(sim.log)) + multiset(sim.pending) == multiset(sim.scheduled)
    && (forall i | 0 <= i < |sim.scheduled| :: sim.scheduled[i].serial == i)
    && (forall i | 0 <= i < |sim.log| :: Timely(sim.log[i], sim.ticks.total))
    && (forall i | 0 <= i < |sim.pending| :: sim.pending[i].when > sim.ticks.total - SYSTEM_TICK)
    && sim.ticks.total == sim.ticks.idle + sim.ticks.system + sim.ticks.user
  }

  predicate Timely(f: Fired, now: int) {
    f.interrupt.when <= f.at <= now && f.at < f.interrupt.when + SYSTEM_TICK
  }

  predicate Due(sim: Sim) {
    sim.pending != [] && sim.pending[0].when <= sim.ticks.total
  }

  ghost predicate Quiet(sim: Sim) {
    forall p | p in sim.pending :: p.when > sim.ticks.total
  }

  function Made(sim: Sim, r: Request): (p: PendingInterrupt) {
    PendingInterrupt(r.callBack, sim.ticks.total + r.fromNow, r.kind, |sim.scheduled|)
  }

  function Scheduled(sim: Sim, r: Request): (sim': Sim) {
    var p := Made(sim, r);
    sim.(pending := Inserted(PendingCompare, sim.pending, p), scheduled := sim.scheduled + [p])
  }

  function ScheduleAll(sim: Sim, rs: seq<Request>): (sim': Sim)
    decreases |rs|
  {
    if rs == [] then sim else ScheduleAll(Scheduled(sim, rs[0]), rs[1..])
  }

  /** The first interrupt goes from the queue to the log. */
  function Popped(sim: Sim, yieldOnReturn: bool): (sim': Sim)
    requires sim.pending != []
  {
    sim.(pending := sim.pending[1..], log := sim.log + [Fired(sim.pending[0], sim.ticks.total, |sim.scheduled|)],
         yieldOnReturn := sim.yieldOnReturn || yieldOnReturn)
  }

  /** The first interrupt leaves the queue and its handler runs. */
  function Fire(sim: Sim, handlers: Handlers): (sim': Sim)
    requires sim.pending != []
  {
    var effects := handlers(sim.pending[0]);
    ScheduleAll(Popped(sim, effects.yieldOnReturn), effects.requests)
  }

  /** How many interrupts are due. */
  function DueCount(s: seq<PendingInterrupt>, now: int): (n: nat) {
    if s == [] then 0 else (if s[0].when <= now then 1 else 0) + DueCount(s[1..], now)
  }

  lemma {:induction false} DueCountJoin(s: seq<PendingInterrupt>, t: seq<PendingInterrupt>, now: int)
    ensures DueCount(s + t, now) == DueCount(s, now) + DueCount(t, now)
  {
    if s == [] {
      assert s + t == t;
    } else {
      assert (s + t)[1..] == s[1..] + t;
      DueCountJoin(s[1..], t, now);
    }
  }

  /** What is scheduled is never due at once. */
  lemma ScheduleNotDue(sim: Sim, r: Request)
    ensures Scheduled(sim, r).ticks == sim.ticks
    ensures DueCount(Scheduled(sim, r).pending, sim.ticks.total) == DueCount(sim.pending, sim.ticks.total)
  {
    var p := Made(sim, r);
    var k := Position(PendingCompare, sim.pending, p);
    DueCountJoin(sim.pending[..k] + [p], sim.pending[k..], sim.ticks.total);
    DueCountJoin(sim.pending[..k], [p], sim.ticks.total);
    DueCountJoin(sim.pending[..k], sim.pending[k..], sim.ticks.total);
    assert sim.pending[..k] + sim.pending[k..] == sim.pending;
  }

  lemma {:induction false} ScheduleAllNotDue(sim: Sim, rs: seq<Request>)
    ensures ScheduleAll(sim, rs).ticks == sim.ticks
    ensures DueCount(ScheduleAll(sim, rs).pending, sim.ticks.total) == DueCount(sim.pending, sim.ticks.total)
    decreases |rs|
  {
    hide Scheduled;
    if rs != [] {
      ScheduleNotDue(sim, rs[0]);
      ScheduleAllNotDue(Scheduled(sim, rs[0]), rs[1..]);
    }
  }

  /** However much the handlers schedule, each turn of the loop leaves fewer interrupts due: the loop ends. */
  lemma FireMakesProgress(sim: Sim, handlers: Handlers)
    requires Due(sim)
    ensures Fire(sim, handlers).ticks == sim.ticks
    ensures DueCount(Fire(sim, handlers).pending, sim.ticks.total) == DueCount(sim.pending, sim.ticks.total) - 1
  {
    var effects := handlers(sim.pending[0]);
    ScheduleAllNotDue(Popped(sim, effects.yieldOnReturn), effects.requests);
  }

  /** The do-while loop of CheckIfDue. */
  function Drain(sim: Sim, handlers: Handlers): (sim': Sim)
    requires Due(sim)
    decreases DueCount(sim.pending, sim.ticks.total)
  {
    FireMakesProgress(sim, handlers);
    var sim1 := Fire(sim, handlers);
    if Due(sim1) then Drain(sim1, handlers) else sim1
  }

  /** CheckIfDue when it does call a handler, after the clock has perhaps been moved up. */
  function Advanced(sim: Sim): (sim': Sim)
    requires sim.pending != []
  {
    var next := sim.pending[0];
    if next.when > sim.ticks.total then
      sim.(ticks := sim.ticks.(idle := sim.ticks.idle + (next.when - sim.ticks.total), total := next.when))
    else sim
  }

  function Checked(sim: Sim, advanceClock: bool, handlers: Handlers): (r: (Sim, bool)) {
    if sim.pending == [] || (sim.pending[0].when > sim.ticks.total && !advanceClock) then (sim, false)
    else (Drain(Advanced(sim), handlers), true)
  }

  /** OneTick up to the context switch; `system` tells whether the machine is in system mode. */
  function Ticked(sim: Sim, system: bool): (sim': Sim) {
    var t := sim.ticks;
    if system then sim.(ticks := t.(total := t.total + SYSTEM_TICK, system := t.system + SYSTEM_TICK))
    else sim.(ticks := t.(total := t.total + USER_TICK, user := t.user + USER_TICK))
  }

  // ---------------------------------------------------------------------
  // Every operation keeps the invariant
  // ---------------------------------------------------------------------

  lemma CompareIsOrder()
    ensures IsOrder(PendingCompare)
  {
  }

  lemma SerialsKnown(sim: Sim, p: PendingInterrupt)
    requires multiset(Logged(sim.log)) + multiset(sim.pending) == multiset(sim.scheduled)
    requires forall i | 0 <= i < |sim.scheduled| :: sim.scheduled[i].serial == i
    requires p in sim.pending
    ensures p.serial < |sim.scheduled|
  {
    assert p in multiset(sim.pending);
    assert p in multiset(sim.scheduled);
  }

  lemma QueueSorted(fired: seq<PendingInterrupt>, q: seq<PendingInterrupt>)
    requires InOrder(fired + q)
    ensures Sorted(PendingCompare, q)
  {
    forall i, j | 0 <= i < j < |q| ensures PendingCompare(q[i], q[j]) <= 0 {
      assert (fired + q)[|fired| + i] == q[i] && (fired + q)[|fired| + j] == q[j];
    }
  }

  lemma InOrderInserted(s: seq<PendingInterrupt>, t: seq<PendingInterrupt>, p: PendingInterrupt)
    requires InOrder(s + t)
    requires forall i | 0 <= i < |s| :: Before(s[i], p)
    requires forall i | 0 <= i < |t| :: Before(p, t[i])
    ensures InOrder(s + [p] + t)
  {
    var r := s + [p] + t;
    forall i, j | 0 <= i < j < |r| ensures Before(r[i], r[j]) {
      if i != |s| && j != |s| {
        var i', j' := if i < |s| then i else i - 1, if j < |s| then j else j - 1;
        assert (s + t)[i'] == r[i] && (s + t)[j'] == r[j];
      }
    }
  }

  lemma NewIsNew(sim: Sim, r: Request)
    requires Ok(sim)
    ensures Made(sim, r) !in sim.pending
  {
    if Made(sim, r) in sim.pending {
      SerialsKnown(sim, Made(sim, r));
    }
  }

  /** The new interrupt is due after all that were handled, and lands after all that are due no later. */
  lemma NewGoesLast(sim: Sim, r: Request)
    requires Ok(sim)
    ensures var p, k := Made(sim, r), Position(PendingCompare, sim.pending, Made(sim, r));
            && (forall i | 0 <= i < |sim.log| :: Before(sim.log[i].interrupt, p))
            && (forall i | 0 <= i < k :: Before(sim.pending[i], p))
            && (forall i | k <= i < |sim.pending| :: Before(p, sim.pending[i]))
  {
    hide IsOrder;
    hide InOrder;
    hide Position;
    var p, q := Made(sim, r), sim.pending;
    var k := Position(PendingCompare, q, p);
    QueueSorted(Logged(sim.log), q);
    CompareIsOrder();
    AfterAllNotGreater(PendingCompare, q, p);
    forall i | 0 <= i < k ensures Before(q[i], p) {
      SerialsKnown(sim, q[i]);
    }
    forall i | 0 <= i < |sim.log| ensures Before(sim.log[i].interrupt, p) {
      assert Timely(sim.log[i], sim.ticks.total);
    }
  }

  lemma PutBetween<T>(a: seq<T>, q: seq<T>, k: nat, x: T)
    requires k <= |q|
    ensures a + q == (a + q[..k]) + q[k..]
    ensures a + (q[..k] + [x] + q[k..]) == (a + q[..k]) + [x] + q[k..]
  {
  }

  lemma ScheduledInOrder(sim: Sim, r: Request)
    requires Ok(sim)
    ensures InOrder(Logged(sim.log) + Scheduled(sim, r).pending)
  {
    hide Before;
    NewGoesLast(sim, r);
    var p, q, fired := Made(sim, r), sim.pending, Logged(sim.log);
    var k := Position(PendingCompare, q, p);
    hide Position;
    PutBetween(fired, q, k, p);
    hide InOrder;
    hide Logged;
    var early := fired + q[..k];
    forall i | 0 <= i < |early| ensures Before(early[i], p) {
      assert early[i] == if i < |fired| then sim.log[i].interrupt else q[i - |fired|];
    }
    InOrderInserted(fired + q[..k], q[k..], p);
  }

  /** One item more, wherever it went. */
  lemma InsertedBag(q: seq<PendingInterrupt>, p: PendingInterrupt)
    ensures multiset(Inserted(PendingCompare, q, p)) == multiset(q) + multiset{p}
    ensures forall x | x in Inserted(PendingCompare, q, p) :: x == p || x in q
  {
    var k := Position(PendingCompare, q, p);
    assert q == q[..k] + q[k..];
  }

  lemma ScheduleKeepsOk(sim: Sim, r: Request)
    requires Ok(sim)
    ensures Ok(Scheduled(sim, r))
    ensures Quiet(sim) ==> Quiet(Scheduled(sim, r))
  {
    ScheduledInOrder(sim, r);
    InsertedBag(sim.pending, Made(sim, r));
    BagsRegroup(multiset(Logged(sim.log)), multiset(sim.pending), multiset{Made(sim, r)});
    hide InOrder;
    hide Logged;
    hide Inserted;
    hide Timely;
  }

  lemma {:induction false} ScheduleAllKeepsOk(sim: Sim, rs: seq<Request>)
    requires Ok(sim)
    ensures Ok(ScheduleAll(sim, rs))
    decreases |rs|
  {
    hide Ok;
    hide Scheduled;
    if rs != [] {
      ScheduleKeepsOk(sim, rs[0]);
      ScheduleAllKeepsOk(Scheduled(sim, rs[0]), rs[1..]);
    }
  }

  lemma {:induction false} ScheduleAllFrame(sim: Sim, rs: seq<Request>)
    ensures var sim' := ScheduleAll(sim, rs);
            sim'.ticks == sim.ticks && sim'.log == sim.log && sim'.yieldOnReturn == sim.yieldOnReturn
            && sim.scheduled <= sim'.scheduled
    decreases |rs|
  {
    if rs != [] {
      ScheduleAllFrame(Scheduled(sim, rs[0]), rs[1..]);
    }
  }

  /** Calling the first handler moves its interrupt from the queue to the end of the log, and nothing else. */
  lemma PoppedIsOk(sim: Sim, yieldOnReturn: bool)
    requires Ok(sim) && Due(sim)
    ensures Ok(Popped(sim, yieldOnReturn))
  {
    var sim' := Popped(sim, yieldOnReturn);
    assert Logged(sim'.log) + sim'.pending == Logged(sim.log) + sim.pending;
    assert multiset(Logged(sim'.log) + sim'.pending) == multiset(Logged(sim.log) + sim.pending);
    hide InOrder;
    assert forall i | 0 <= i < |sim.log| :: Timely(sim.log[i], sim.ticks.total);
  }

  lemma FireKeepsOk(sim: Sim, handlers: Handlers)
    requires Ok(sim) && Due(sim)
    ensures Ok(Fire(sim, handlers)) && Fire(sim, handlers).log == Popped(sim, false).log
  {
    hide Ok;
    var effects := handlers(sim.pending[0]);
    PoppedIsOk(sim, effects.yieldOnReturn);
    ScheduleAllKeepsOk(Popped(sim, effects.yieldOnReturn), effects.requests);
    ScheduleAllFrame(Popped(sim, effects.yieldOnReturn), effects.requests);
  }

  /** The loop ends with nothing due; it calls at least one handler, all of them now. */
  lemma {:induction false} DrainKeepsOk(sim: Sim, handlers: Handlers)
    requires Ok(sim) && Due(sim)
    ensures var sim' := Drain(sim, handlers);
            && Ok(sim') && Quiet(sim') && sim'.ticks == sim.ticks
            && |sim'.log| > |sim.log| && sim'.log[..|sim.log|] == sim.log
            && sim'.log[|sim.log|].interrupt == sim.pending[0]
            && forall i | |sim.log| <= i < |sim'.log| :: sim'.log[i].at == sim.ticks.total
    decreases DueCount(sim.pending, sim.ticks.total)
  {
    hide Ok;
    hide Fire;
    FireKeepsOk(sim, handlers);
    FireMakesProgress(sim, handlers);
    var sim1 := Fire(sim, handlers);
    if Due(sim1) {
      DrainKeepsOk(sim1, handlers);
    } else {
      NotDueIsQuiet(sim1);
    }
  }

  lemma NotDueIsQuiet(sim: Sim)
    requires Ok(sim) && !Due(sim)
    ensures Quiet(sim)
  {
    QueueSorted(Logged(sim.log), sim.pending);
  }

  lemma LogInOrder(sim: Sim, k: nat)
    requires Ok(sim) && k < |sim.log|
    ensures forall i | k <= i < |sim.log| :: sim.log[i].interrupt.when >= sim.log[k].interrupt.when
  {
    var all := Logged(sim.log) + sim.pending;
    forall i | k < i < |sim.log| ensures sim.log[i].interrupt.when >= sim.log[k].interrupt.when {
      assert Before(all[k], all[i]);
    }
  }

  lemma LogTimely(sim: Sim)
    requires Ok(sim)
    ensures forall i | 0 <= i < |sim.log| :: sim.log[i].interrupt.when <= sim.log[i].at <= sim.ticks.total
  {
    assert forall i | 0 <= i < |sim.log| :: Timely(sim.log[i], sim.ticks.total);
  }

  lemma AdvancedIsOk(sim: Sim)
    requires Ok(sim) && sim.pending != []
    ensures Ok(Advanced(sim)) && Due(Advanced(sim))
    ensures Advanced(sim).ticks.total >= sim.ticks.total
  {
    hide InOrder;
    QueueSorted(Logged(sim.log), sim.pending);
    assert forall i | 0 <= i < |sim.log| :: Timely(sim.log[i], sim.ticks.total);
  }

  /** After CheckIfDue nothing that is pending is due, and a handler was called unless there was none to call. */
  lemma CheckIfDueKeepsOk(sim: Sim, advanceClock: bool, handlers: Handlers)
    requires Ok(sim)
    ensures var (sim', called) := Checked(sim, advanceClock, handlers);
            && Ok(sim') && Quiet(sim')
            && (called <==> sim.pending != [] && (advanceClock || Due(sim)))
            && (called ==> sim'.ticks == Advanced(sim).ticks)
            && (!called ==> sim' == sim)
            && |sim.log| <= |sim'.log| && sim'.log[..|sim.log|] == sim.log
            && forall i | |sim.log| <= i < |sim'.log| ::
                 && sim.pending != [] && sim'.log[i].at == sim'.ticks.total
                 && sim.pending[0].when <= sim'.log[i].interrupt.when <= sim'.log[i].at
  {
    hide Ok;
    if sim.pending != [] && (advanceClock || Due(sim)) {
      AdvancedIsOk(sim);
      DrainKeepsOk(Advanced(sim), handlers);
      LogInOrder(Drain(Advanced(sim), handlers), |sim.log|);
      LogTimely(Drain(Advanced(sim), handlers));
    } else {
      NotDueIsQuiet(sim);
    }
  }

  lemma TickedIsOk(sim: Sim, system: bool)
    requires Ok(sim) && Quiet(sim)
    ensures Ok(Ticked(sim, system))
  {
    hide InOrder;
    assert forall i | 0 <= i < |sim.log| :: Timely(sim.log[i], sim.ticks.total);
  }

  /** A tick: time moves on by one unit of the mode, and what falls due in it is handled at its end. */
  lemma TickKeepsOk(sim: Sim, system: bool, handlers: Handlers)
    requires Ok(sim) && Quiet(sim)
    ensures var sim', t := Checked(Ticked(sim, system), false, handlers).0, sim.ticks;
            && Ok(sim') && Quiet(sim')
            && sim'.ticks == (if system then Ticks(t.total + SYSTEM_TICK, t.idle, t.system + SYSTEM_TICK, t.user)
                              else Ticks(t.total + USER_TICK, t.idle, t.system, t.user + USER_TICK))
            && |sim.log| <= |sim'.log| && sim'.log[..|sim.log|] == sim.log
            && forall i | |sim.log| <= i < |sim'.log| ::
                 sim.ticks.total < sim'.log[i].interrupt.when <= sim'.log[i].at == sim'.ticks.total
  {
    hide Ok;
    hide Checked;
    TickedIsOk(sim, system);
    CheckIfDueKeepsOk(Ticked(sim, system), false, handlers);
  }

  /** Idling: the clock jumps to the next interrupt, and all that are due then are handled exactly on time. */
  lemma IdleKeepsOk(sim: Sim, handlers: Handlers)
    requires Ok(sim) && Quiet(sim)
    ensures var (sim', called) := Checked(sim, true, handlers);
            && Ok(sim') && Quiet(sim') && (called <==> sim.pending != [])
            && (called ==> var t, next := sim.ticks, sim.pending[0].when;
                  next > t.total && sim'.ticks == Ticks(next, t.idle + (next - t.total), t.system, t.user))
            && (!called ==> sim' == sim)
            && |sim.log| <= |sim'.log| && sim'.log[..|sim.log|] == sim.log
            && forall i | |sim.log| <= i < |sim'.log| :: sim'.log[i].at == sim'.log[i].interrupt.when
  {
    hide Ok;
    hide Checked;
    CheckIfDueKeepsOk(sim, true, handlers);
  }

  // ---------------------------------------------------------------------
  // What handlers ask for
  // ---------------------------------------------------------------------

  /** `p` is what was asked for at time `at`. */
  predicate Fits(p: PendingInterrupt, r: Request, at: int) {
    p.callBack == r.callBack && p.kind == r.kind && p.when == at + r.fromNow
  }

  /** The interrupts scheduled from number `from` on are those that `rs` asked for at time `at`, in order. */
  ghost predicate Granted(scheduled: seq<PendingInterrupt>, from: nat, rs: seq<Request>, at: int) {
    from + |rs| <= |scheduled| && forall j | 0 <= j < |rs| :: Fits(scheduled[from + j], rs[j], at)
  }

  lemma {:induction false} ScheduleAllGrants(sim: Sim, rs: seq<Request>)
    ensures var sim' := ScheduleAll(sim, rs);
            && |sim'.scheduled| == |sim.scheduled| + |rs| && sim.scheduled <= sim'.scheduled
            && Granted(sim'.scheduled, |sim.scheduled|, rs, sim.ticks.total)
    decreases |rs|
  {
    hide Inserted;
    if rs != [] {
      var sim1, sim' := Scheduled(sim, rs[0]), ScheduleAll(sim, rs);
      ScheduleAllGrants(sim1, rs[1..]);
      assert sim'.scheduled[|sim.scheduled|] == sim1.scheduled[|sim.scheduled|];
      forall j | 0 < j < |rs| ensures Fits(sim'.scheduled[|sim.scheduled| + j], rs[j], sim.ticks.total) {
        assert Fits(sim'.scheduled[|sim1.scheduled| + (j - 1)], rs[1..][j - 1], sim.ticks.total);
      }
    }
  }

  /** How many requests the handlers in the log have made. */
  function Asked(log: seq<Fired>, handlers: Handlers): (n: nat) {
    if log == [] then 0
    else Asked(log[..|log| - 1], handlers) + |handlers(log[|log| - 1].interrupt).requests|
  }

  /** Every handler's requests have been scheduled, for their delays from the time of the call, as one block; the
      blocks do not overlap, and what is left over, `direct` interrupts, was scheduled from outside. */
  ghost predicate Answered(sim: Sim, direct: nat, handlers: Handlers) {
    && (forall i | 0 <= i < |sim.log| ::
          Granted(sim.scheduled, sim.log[i].known, handlers(sim.log[i].interrupt).requests, sim.log[i].at))
    && (forall i, j | 0 <= i < j < |sim.log| ::
          sim.log[i].known + |handlers(sim.log[i].interrupt).requests| <= sim.log[j].known)
    && |sim.scheduled| == direct + Asked(sim.log, handlers)
  }

  lemma GrantedStill(scheduled: seq<PendingInterrupt>, scheduled': seq<PendingInterrupt>, from: nat, rs: seq<Request>,
                     at: int)
    requires Granted(scheduled, from, rs, at) && scheduled <= scheduled'
    ensures Granted(scheduled', from, rs, at)
  {
  }

  lemma FireAnswers(sim: Sim, direct: nat, handlers: Handlers)
    requires Answered(sim, direct, handlers) && Due(sim)
    ensures Answered(Fire(sim, handlers), direct, handlers) && sim.scheduled <= Fire(sim, handlers).scheduled
  {
    hide Granted;
    hide ScheduleAll;
    var effects, sim' := handlers(sim.pending[0]), Fire(sim, handlers);
    var popped := Popped(sim, effects.yieldOnReturn);
    ScheduleAllGrants(popped, effects.requests);
    ScheduleAllFrame(popped, effects.requests);
    assert sim'.log[..|sim.log|] == sim.log;
    forall i | 0 <= i < |sim'.log|
      ensures Granted(sim'.scheduled, sim'.log[i].known, handlers(sim'.log[i].interrupt).requests, sim'.log[i].at)
      ensures i < |sim.log| ==>
                sim.log[i].known + |handlers(sim.log[i].interrupt).requests| <= |sim.scheduled|
    {
      if i < |sim.log| {
        var rs := handlers(sim.log[i].interrupt).requests;
        GrantedStill(sim.scheduled, sim'.scheduled, sim.log[i].known, rs, sim.log[i].at);
        GrantedFits(sim.scheduled, sim.log[i].known, rs, sim.log[i].at);
      }
    }
  }

  lemma GrantedFits(scheduled: seq<PendingInterrupt>, from: nat, rs: seq<Request>, at: int)
    requires Granted(scheduled, from, rs, at)
    ensures from + |rs| <= |scheduled|
  {
  }

  lemma {:induction false} DrainAnswers(sim: Sim, direct: nat, handlers: Handlers)
    requires Answered(sim, direct, handlers) && Due(sim)
    ensures Answered(Drain(sim, handlers), direct, handlers) && sim.scheduled <= Drain(sim, handlers).scheduled
    decreases DueCount(sim.pending, sim.ticks.total)
  {
    hide Answered;
    hide Fire;
    FireMakesProgress(sim, handlers);
    FireAnswers(sim, direct, handlers);
    if Due(Fire(sim, handlers)) {
      DrainAnswers(Fire(sim, handlers), direct, handlers);
    }
  }

  lemma CheckIfDueAnswers(sim: Sim, advanceClock: bool, direct: nat, handlers: Handlers)
    requires Answered(sim, direct, handlers)
    ensures var sim' := Checked(sim, advanceClock, handlers).0;
            Answered(sim', direct, handlers) && sim.scheduled <= sim'.scheduled
  {
    hide Drain;
    if sim.pending != [] && (advanceClock || Due(sim)) {
      DrainAnswers(Advanced(sim), direct, handlers);
    }
  }

  /** Fire passes on its handler's wish for a context switch. */
  lemma FireYields(sim: Sim, handlers: Handlers)
    requires sim.pending != []
    ensures var sim' := Fire(sim, handlers);
            && |sim'.log| == |sim.log| + 1 && sim'.log[..|sim.log|] == sim.log
            && (sim'.yieldOnReturn <==>
                  sim.yieldOnReturn || handlers(sim'.log[|sim.log|].interrupt).yieldOnReturn)
  {
    var effects := handlers(sim.pending[0]);
    ScheduleAllFrame(Popped(sim, effects.yieldOnReturn), effects.requests);
  }

  lemma {:induction false} DrainYields(sim: Sim, handlers: Handlers)
    requires Due(sim)
    ensures var sim' := Drain(sim, handlers);
            && |sim.log| <= |sim'.log| && sim'.log[..|sim.log|] == sim.log
            && (sim'.yieldOnReturn <==>
                  || sim.yieldOnReturn
                  || exists i :: |sim.log| <= i < |sim'.log| && handlers(sim'.log[i].interrupt).yieldOnReturn)
    decreases DueCount(sim.pending, sim.ticks.total)
  {
    hide Fire;
    FireMakesProgress(sim, handlers);
    FireYields(sim, handlers);
    var sim1, sim' := Fire(sim, handlers), Drain(sim, handlers);
    if Due(sim1) {
      DrainYields(sim1, handlers);
      assert sim'.log[|sim.log|] == sim1.log[|sim.log|];
      assert sim'.log[..|sim.log|] == sim1.log[..|sim.log|];
    }
  }

  /** A context switch is asked for exactly if one was before, or a handler that is called now does. */
  lemma CheckIfDueYields(sim: Sim, advanceClock: bool, handlers: Handlers)
    ensures var sim' := Checked(sim, advanceClock, handlers).0;
            && |sim.log| <= |sim'.log|
            && (sim'.yieldOnReturn <==>
                  || sim.yieldOnReturn
                  || exists i :: |sim.log| <= i < |sim'.log| && handlers(sim'.log[i].interrupt).yieldOnReturn)
  {
    hide Drain;
    if sim.pending != [] && (advanceClock || Due(sim)) {
      DrainYields(Advanced(sim), handlers);
    }
  }

  // ---------------------------------------------------------------------
  // Whole runs
  // ---------------------------------------------------------------------

  datatype Step = Schedules(r: Request) | Tick(system: bool) | Idles

  function Start(): (sim: Sim) {
    Sim(Ticks(0, 0, 0, 0), [], [], [], false)
  }

  function Next(sim: Sim, step: Step, handlers: Handlers): (sim': Sim) {
    match step
    case Schedules(r) => Scheduled(sim, r)
    case Tick(system) => Checked(Ticked(sim, system), false, handlers).0
    case Idles => Checked(sim, true, handlers).0
  }

  function Run(sim: Sim, steps: seq<Step>, handlers: Handlers): (sim': Sim) {
    if steps == [] then sim else Next(Run(sim, steps[..|steps| - 1], handlers), steps[|steps| - 1], handlers)
  }

  lemma StepKeepsOk(sim: Sim, step: Step, handlers: Handlers)
    requires Ok(sim) && Quiet(sim)
    ensures var sim' := Next(sim, step, handlers);
            && Ok(sim') && Quiet(sim') && sim'.ticks.total >= sim.ticks.total
            && |sim.log| <= |sim'.log| && sim'.log[..|sim.log|] == sim.log
  {
    hide Ok;
    hide Quiet;
    match step {
      case Schedules(r) => ScheduleKeepsOk(sim, r);
      case Tick(system) => TickKeepsOk(sim, system, handlers);
      case Idles => IdleKeepsOk(sim, handlers);
    }
  }

  /** In every state of every run, time has not gone back and adds up, the log has only grown, and an interrupt has
      been handled if and only if its time has come. */
  lemma {:induction false} RunsAreOk(steps: seq<Step>, n: nat, handlers: Handlers)
    requires n <= |steps|
    ensures var sim, sim' := Run(Start(), steps[..n], handlers), Run(Start(), steps, handlers);
            && Ok(sim') && Quiet(sim') && sim'.ticks.total >= sim.ticks.total
            && |sim.log| <= |sim'.log| && sim'.log[..|sim.log|] == sim.log
            && forall p | p in sim'.scheduled :: p in Logged(sim'.log) <==> p.when <= sim'.ticks.total
    decreases |steps|
  {
    hide Next;
    if steps == [] {
      assert Ok(Start()) && Quiet(Start());
    } else {
      var k := |steps| - 1;
      var before, after := Run(Start(), steps[..k], handlers), Run(Start(), steps, handlers);
      assert n <= k ==> steps[..k][..n] == steps[..n];
      assert n > k ==> steps[..n] == steps && steps[..k][..k] == steps[..k];
      RunsAreOk(steps[..k], if n <= k then n else k, handlers);
      StepKeepsOk(before, steps[k], handlers);
      HandledIffDue(after);
    }
  }

  /** How many interrupts the run schedules itself, handlers apart. */
  function Direct(steps: seq<Step>): (n: nat) {
    if steps == [] then 0 else Direct(steps[..|steps| - 1]) + if steps[|steps| - 1].Schedules? then 1 else 0
  }

  lemma StepAnswers(sim: Sim, step: Step, direct: nat, handlers: Handlers)
    requires Answered(sim, direct, handlers)
    ensures var sim' := Next(sim, step, handlers);
            && sim.scheduled <= sim'.scheduled
            && Answered(sim', direct + if step.Schedules? then 1 else 0, handlers)
            && (step.Schedules? ==>
                  && |sim'.scheduled| == |sim.scheduled| + 1
                  && Fits(sim'.scheduled[|sim.scheduled|], step.r, sim.ticks.total))
  {
    hide Checked;
    hide Inserted;
    match step {
      case Schedules(r) =>
        var sim' := Scheduled(sim, r);
        forall i | 0 <= i < |sim.log|
          ensures Granted(sim'.scheduled, sim.log[i].known, handlers(sim.log[i].interrupt).requests, sim.log[i].at)
        {
          GrantedStill(sim.scheduled, sim'.scheduled, sim.log[i].known, handlers(sim.log[i].interrupt).requests,
                       sim.log[i].at);
        }
        hide Granted;
      case Tick(system) => CheckIfDueAnswers(Ticked(sim, system), false, direct, handlers);
      case Idles => CheckIfDueAnswers(sim, true, direct, handlers);
    }
  }

  /** In every run, all that handlers asked for has been scheduled, for the delay asked for from the time of the call,
      and nothing else but what the run scheduled itself. */
  lemma {:induction false} RequestsAreAnswered(steps: seq<Step>, n: nat, handlers: Handlers)
    requires n <= |steps|
    ensures Answered(Run(Start(), steps, handlers), Direct(steps), handlers)
    ensures Run(Start(), steps[..n], handlers).scheduled <= Run(Start(), steps, handlers).scheduled
    decreases |steps|
  {
    hide Next;
    if steps == [] {
      assert Answered(Start(), 0, handlers);
    } else {
      var k := |steps| - 1;
      hide Answered;
      assert n <= k ==> steps[..k][..n] == steps[..n];
      assert n > k ==> steps[..n] == steps && steps[..k][..k] == steps[..k];
      RequestsAreAnswered(steps[..k], if n <= k then n else k, handlers);
      StepAnswers(Run(Start(), steps[..k], handlers), steps[k], Direct(steps[..k]), handlers);
    }
  }

  /** What Schedule promises, over every run: an interrupt scheduled in step `k` is there in every later state, with the
      caller's callback and kind, and it has been handled if and only if `fromNow` ticks have gone by. */
  lemma ScheduledIsHandledOnTime(steps: seq<Step>, k: nat, handlers: Handlers)
    requires k < |steps| && steps[k].Schedules?
    ensures var before, now := Run(Start(), steps[..k], handlers), Run(Start(), steps, handlers);
            var serial, r := |before.scheduled|, steps[k].r;
            && serial < |now.scheduled| && now.scheduled[serial].serial == serial
            && Fits(now.scheduled[serial], r, before.ticks.total)
            && (now.scheduled[serial] in Logged(now.log) <==> now.ticks.total >= before.ticks.total + r.fromNow)
  {
    var before, now := Run(Start(), steps[..k], handlers), Run(Start(), steps, handlers);
    RequestsAreAnswered(steps[..k], k, handlers);
    StepAnswers(before, steps[k], Direct(steps[..k]), handlers);
    assert steps[..k + 1][..k] == steps[..k];
    RequestsAreAnswered(steps, k + 1, handlers);
    RunsAreOk(steps, 0, handlers);
    hide Answered;
    hide Next;
    var after := Run(Start(), steps[..k + 1], handlers);
    assert after == Next(before, steps[k], handlers);
    assert now.scheduled[|before.scheduled|] == after.scheduled[|before.scheduled|];
    assert now.scheduled[|before.scheduled|] in now.scheduled;
  }

  lemma HandledIffDue(sim: Sim)
    requires Ok(sim) && Quiet(sim)
    ensures forall p | p in sim.scheduled :: p in Logged(sim.log) <==> p.when <= sim.ticks.total
  {
    hide InOrder;
    forall p | p in sim.scheduled ensures p in Logged(sim.log) <==> p.when <= sim.ticks.total {
      assert p in multiset(sim.scheduled);
      assert p in multiset(Logged(sim.log)) || p in multiset(sim.pending);
      if i :| 0 <= i < |sim.log| && sim.log[i].interrupt == p {
        assert Timely(sim.log[i], sim.ticks.total);
      }
    }
  }

  lemma SameWithoutYield(sim: Sim)
    requires Ok(sim) && Quiet(sim)
    ensures Ok(sim.(yieldOnReturn := false)) && Quiet(sim.(yieldOnReturn := false))
  {
    assert forall i | 0 <= i < |sim.log| :: Timely(sim.log[i], sim.ticks.total);
  }

  // ---------------------------------------------------------------------
  // The simulation as an object
  // ---------------------------------------------------------------------

  class Statistics {
    var totalTicks: int
    var idleTicks: int
    var systemTicks: int
    var userTicks: int

    constructor ()
      ensures totalTicks == idleTicks == systemTicks == userTicks == 0
    {
      totalTicks, idleTicks, systemTicks, userTicks := 0, 0, 0, 0;
    }
  }

  class Interrupt {
    var level: IntStatus
    const pending: SortedList<PendingInterrupt>
    var inHandler: bool
    var yieldOnReturn: bool
    var status: MachineStatus
    const stats: Statistics
    var nextSerial: nat
    const handlers: Handlers
    ghost var scheduled: seq<PendingInterrupt>
    ghost var log: seq<Fired>
    ghost var Repr: set<object>

    ghost predicate Shape()
      reads this, Repr
    {
      && {this, stats, pending.list} <= Repr && (forall n | n in pending.list.spine :: n in Repr)
      && pending.list.Valid() && pending.compare == PendingCompare && nextSerial == |scheduled|
    }

    ghost function State(): Sim
      reads this, stats, pending.list
    {
      Sim(Ticks(stats.totalTicks, stats.idleTicks, stats.systemTicks, stats.userTicks),
          pending.list.Contents(), scheduled, log, yieldOnReturn)
    }

    ghost predicate Valid()
      reads this, Repr
    {
      Shape() && Ok(State())
    }

    constructor (handlers: Handlers)
      ensures Valid() && State() == Start() && this.handlers == handlers
      ensures level == IntOff && status == SystemMode && !inHandler
      ensures fresh(Repr)
    {
      level := IntOff;
      var queue := new SortedList(PendingCompare);
      pending := queue;
      inHandler := false;
      yieldOnReturn := false;
      status := SystemMode;
      stats := new Statistics();
      nextSerial := 0;
      this.handlers := handlers;
      scheduled, log := [], [];
      Repr := {this, stats, queue.list};
    }

    method Schedule(r: Request)
      requires Valid()
      modifies Repr
      ensures Valid() && State() == Scheduled(old(State()), r)
      ensures var p := PendingInterrupt(r.callBack, old(stats.totalTicks) + r.fromNow, r.kind, old(nextSerial));
              && scheduled == old(scheduled) + [p] && log == old(log) && stats.totalTicks == old(stats.totalTicks)
              && multiset(pending.list.Contents()) == multiset(old(pending.list.Contents())) + multiset{p}
      ensures fresh(Repr - old(Repr))
      ensures level == old(level) && inHandler == old(inHandler) && status == old(status)
    {
      hide Inserted;
      hide Ok;
      hide Chain;
      hide Items;
      var toOccur := PendingInterrupt(r.callBack, stats.totalTicks + r.fromNow, r.kind, nextSerial);
      ghost var sim := State();
      ScheduleKeepsOk(sim, r);
      NewIsNew(sim, r);
      InsertedBag(sim.pending, toOccur);
      nextSerial := nextSerial + 1;
      scheduled := scheduled + [toOccur];
      pending.Insert(toOccur);
      Repr := Repr + set n: object | n in pending.list.spine;
      assert State() == Scheduled(sim, r);
    }

    method YieldOnReturn()
      requires inHandler
      modifies this`yieldOnReturn
      ensures yieldOnReturn
    {
      yieldOnReturn := true;
    }

    /** The requests that a handler makes while it runs. */
    method Serve(requests: seq<Request>)
      requires Valid()
      modifies Repr
      ensures Valid() && State() == ScheduleAll(old(State()), requests)
      ensures fresh(Repr - old(Repr))
      ensures level == old(level) && inHandler == old(inHandler) && status == old(status)
    {
      hide Ok;
      hide Scheduled;
      hide Chain;
      hide Items;
      var i := 0;
      while i < |requests|
        invariant 0 <= i <= |requests| && Valid()
        invariant ScheduleAll(State(), requests[i..]) == ScheduleAll(old(State()), requests)
        invariant fresh(Repr - old(Repr))
        invariant level == old(level) && inHandler == old(inHandler) && status == old(status)
      {
        assert requests[i..][1..] == requests[i + 1..];
        Schedule(requests[i]);
        i := i + 1;
      }
    }

    /** The body of the loop in CheckIfDue, with the call of the handler. */
    method CallFirst()
      requires Valid() && Due(State()) && inHandler
      modifies Repr
      ensures Valid() && State() == Fire(old(State()), handlers)
      ensures fresh(Repr - old(Repr))
      ensures level == old(level) && inHandler && status == old(status)
    {
      hide Ok;
      hide Chain;
      hide Items;
      hide ScheduleAll;
      ghost var sim := State();
      PoppedIsOk(sim, handlers(sim.pending[0]).yieldOnReturn);
      var next := pending.list.RemoveFront();
      log := log + [Fired(next, stats.totalTicks, nextSerial)];
      var effects := handlers(next);
      if effects.yieldOnReturn {
        YieldOnReturn();
      }
      assert State().pending == Popped(sim, effects.yieldOnReturn).pending;
      assert State() == Popped(sim, effects.yieldOnReturn);
      Serve(effects.requests);
    }

    /** The do-while loop of CheckIfDue. */
    method CallDue()
      requires Valid() && Due(State()) && inHandler
      modifies Repr
      ensures Valid() && State() == Drain(old(State()), handlers)
      ensures fresh(Repr - old(Repr))
      ensures level == old(level) && inHandler && status == old(status)
    {
      hide Ok;
      hide Fire;
      ghost var sim := State();
      FireMakesProgress(sim, handlers);
      CallFirst();
      while !pending.list.IsEmpty() && pending.list.first.item.when <= stats.totalTicks
        invariant Valid() && inHandler && level == old(level) && status == old(status)
        invariant State().ticks == sim.ticks
        invariant Drain(sim, handlers) == if Due(State()) then Drain(State(), handlers) else State()
        invariant fresh(Repr - old(Repr))
        decreases DueCount(State().pending, State().ticks.total)
      {
        FireMakesProgress(State(), handlers);
        CallFirst();
      }
    }

    method CheckIfDue(advanceClock: bool) returns (called: bool)
      requires Valid() && level == IntOff
      modifies Repr
      ensures Valid() && (State(), called) == Checked(old(State()), advanceClock, handlers)
      ensures fresh(Repr - old(Repr))
      ensures level == IntOff && status == old(status) && (called ==> !inHandler)
    {
      hide Ok;
      hide Fire;
      hide Drain;
      if pending.list.IsEmpty() {
        return false;
      }
      AdvancedIsOk(State());
      var next := pending.list.first.item;
      if next.when > stats.totalTicks {
        if !advanceClock {
          return false;
        } else {
          stats.idleTicks := stats.idleTicks + (next.when - stats.totalTicks);
          stats.totalTicks := next.when;
        }
      }
      inHandler := true;
      CallDue();
      inHandler := false;
      return true;
    }

    /** The first part of OneTick. */
    method AdvanceTime()
      requires Valid() && Quiet(State())
      modifies stats
      ensures Valid() && State() == Ticked(old(State()), status == SystemMode)
    {
      hide Ok;
      hide Chain;
      hide Items;
      TickedIsOk(State(), status == SystemMode);
      if status == SystemMode {
        stats.totalTicks := stats.totalTicks + SYSTEM_TICK;
        stats.systemTicks := stats.systemTicks + SYSTEM_TICK;
      } else {
        stats.totalTicks := stats.totalTicks + USER_TICK;
        stats.userTicks := stats.userTicks + USER_TICK;
      }
    }

    /** Returns whether the current process must yield, which the machine then does in system mode. */
    method OneTick() returns (mustYield: bool)
      requires Valid() && Quiet(State())
      modifies Repr
      ensures var sim := Checked(Ticked(old(State()), old(status) == SystemMode), false, handlers).0;
              Valid() && Quiet(State()) && State() == sim.(yieldOnReturn := false) && mustYield == sim.yieldOnReturn
      ensures fresh(Repr - old(Repr))
      ensures level == IntOn && status == old(status)
    {
      hide Ok;
      hide Checked;
      hide Chain;
      hide Items;
      hide Quiet;
      hide Ticked;
      var oldStatus := status;
      AdvanceTime();
      level := IntOff;
      CheckIfDueKeepsOk(State(), false, handlers);
      var called := CheckIfDue(false);
      level := IntOn;
      mustYield := false;
      ghost var sim := State();
      SameWithoutYield(sim);
      if yieldOnReturn {
        yieldOnReturn := false;
        status := SystemMode;
        mustYield := true;
        status := oldStatus;
      }
      assert State() == sim.(yieldOnReturn := false);
    }

    /** Returns whether the machine halts, there being nothing to wait for. */
    method Idle() returns (halts: bool)
      requires Valid() && Quiet(State()) && level == IntOff
      modifies Repr
      ensures Valid() && Quiet(State())
      ensures (State(), !halts) == Checked(old(State()), true, handlers)
      ensures fresh(Repr - old(Repr))
      ensures level == IntOff && status == if halts then IdleMode else SystemMode
    {
      hide Ok;
      hide Checked;
      status := IdleMode;
      IdleKeepsOk(State(), handlers);
      var called := CheckIfDue(true);
      if called {
        status := SystemMode;
        return false;
      }
      return true;
    }

    /** Returns the old level, and whether the current process must yield. */
    method SetLevel(now: IntStatus) returns (was: IntStatus, mustYield: bool)
      requires Valid() && Quiet(State()) && (now == IntOff || !inHandler)
      modifies Repr
      ensures was == old(level) && level == now && status == old(status) && Valid() && Quiet(State())
      ensures if now == IntOn && was == IntOff
              then State() == Checked(Ticked(old(State()), old(status) == SystemMode), false, handlers).0
                              .(yieldOnReturn := false)
              else State() == old(State()) && !mustYield
      ensures fresh(Repr - old(Repr))
    {
      hide Ok;
      hide Checked;
      was := level;
      level := now;
      mustYield := false;
      if now == IntOn && was == IntOff {
        mustYield := OneTick();
      }
    }
  }
}
