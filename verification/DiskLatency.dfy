/** machine/disk.cc: when a disk request completes, from the position of the head and the track buffer. */
module DiskLatency {
  import opened Bytes
  import SynchDisks

  const SECTORS_PER_TRACK := 32
  const NUM_TRACKS := SynchDisks.NUM_SECTORS / SECTORS_PER_TRACK
  const ROTATION_TIME := 500
  const SEEK_TIME := 500

  type Sector = n: nat | n < SynchDisks.NUM_SECTORS

  // ---------------------------------------------------------------------
  // The source's arithmetic
  // ---------------------------------------------------------------------

  /** C's division, which rounds towards zero. */
  function Quotient(x: int, y: int): (q: int)
    requires y > 0
  {
    if x >= 0 then x / y else -(-x / y)
  }

  function Seek(lastSector: Sector, newSector: Sector): (ticks: nat) {
    Abs(newSector / SECTORS_PER_TRACK - lastSector / SECTORS_PER_TRACK) * SEEK_TIME
  }

  /** From `time` to the next sector boundary. */
  function ToBoundary(time: nat): (ticks: nat) {
    var over := time % ROTATION_TIME;
    if over > 0 then ROTATION_TIME - over else 0
  }

  function ModuloDiff(to: nat, from: nat): (sectors: nat) {
    ((to % SECTORS_PER_TRACK - from % SECTORS_PER_TRACK) + SECTORS_PER_TRACK) % SECTORS_PER_TRACK
  }

  function Hit(lastSector: Sector, bufferInit: nat, now: nat, newSector: Sector, writing: bool): (hit: bool) {
    var seek := Seek(lastSector, newSector);
    var timeAfter := now + seek + ToBoundary(now + seek);
    !writing && seek == 0
    && Quotient(timeAfter - bufferInit, ROTATION_TIME) > ModuloDiff(newSector, bufferInit / ROTATION_TIME)
  }

  function Latency(lastSector: Sector, bufferInit: nat, now: nat, newSector: Sector, writing: bool): (ticks: nat) {
    if Hit(lastSector, bufferInit, now, newSector, writing) then ROTATION_TIME
    else
      var seek := Seek(lastSector, newSector);
      var rotation := ToBoundary(now + seek);
      var timeAfter := now + seek + rotation;
      seek + rotation + ModuloDiff(newSector, timeAfter / ROTATION_TIME) * ROTATION_TIME + ROTATION_TIME
  }

  // ---------------------------------------------------------------------
  // The disk itself: it turns one sector every ROTATION_TIME
  // ---------------------------------------------------------------------

  /** During slot q, from q * ROTATION_TIME on, sector q mod SECTORS_PER_TRACK of the track moves past the head. */
  predicate Passes(q: nat, sector: nat) {
    q % SECTORS_PER_TRACK == sector % SECTORS_PER_TRACK
  }

  function Track(sector: Sector): (track: nat)
    ensures track * SECTORS_PER_TRACK <= sector < (track + 1) * SECTORS_PER_TRACK
  {
    sector / SECTORS_PER_TRACK
  }

  /** Seek times add up along the way, are the same in both directions, SEEK_TIME from a track to the next, and 0 on
      the track itself. */
  lemma SeekAddsUp(a: Sector, b: Sector, c: Sector)
    ensures Track(a) == Track(b) ==> Seek(a, b) == 0
    ensures Track(b) == Track(a) + 1 ==> Seek(a, b) == Seek(b, a) == SEEK_TIME
    ensures Track(a) <= Track(b) <= Track(c) ==> Seek(a, c) == Seek(a, b) + Seek(b, c)
    ensures Seek(a, b) == Seek(b, a)
  {
  }

  /** The first slot from `slot` on in which the sector passes the head. */
  lemma FirstPass(slot: nat, sector: nat)
    ensures Passes(slot + ModuloDiff(sector, slot), sector)
    ensures forall q | slot <= q < slot + ModuloDiff(sector, slot) :: !Passes(q, sector)
    ensures ModuloDiff(sector, slot) < SECTORS_PER_TRACK
  {
    forall q | slot <= q && Passes(q, sector) ensures q >= slot + ModuloDiff(sector, slot) {
      PassesApart(slot, q, sector);
    }
  }

  lemma PassesApart(slot: nat, q: nat, sector: nat)
    requires slot <= q && Passes(q, sector)
    ensures q - slot >= ModuloDiff(sector, slot)
  {
    if q - slot < SECTORS_PER_TRACK {
      assert (q - slot) % SECTORS_PER_TRACK == q - slot;
    }
  }

  lemma Boundary(time: nat)
    ensures (time + ToBoundary(time)) % ROTATION_TIME == 0 && ToBoundary(time) < ROTATION_TIME
    ensures forall q: nat :: q * ROTATION_TIME >= time <==> q * ROTATION_TIME >= time + ToBoundary(time)
  {
    forall q: nat ensures q * ROTATION_TIME >= time <==> q * ROTATION_TIME >= time + ToBoundary(time) {
    }
  }

  /** Without the track buffer a request completes exactly when the sector has just passed under the head: in the
      first slot that starts once the seek is over and in which that sector passes; never later than a full seek,
      the rest of a sector and a full turn. */
  lemma MissIsExact(lastSector: Sector, bufferInit: nat, now: nat, newSector: Sector, writing: bool)
    requires !Hit(lastSector, bufferInit, now, newSector, writing)
    ensures var done := now + Latency(lastSector, bufferInit, now, newSector, writing);
            var slot := done / ROTATION_TIME - 1;
            var sought := now + Seek(lastSector, newSector);
            && done == (slot + 1) * ROTATION_TIME && slot >= 0
            && slot * ROTATION_TIME >= sought && Passes(slot, newSector)
            && (forall q: nat | q * ROTATION_TIME >= sought && Passes(q, newSector) :: q >= slot)
            && done - now < (NUM_TRACKS - 1) * SEEK_TIME + ROTATION_TIME + SECTORS_PER_TRACK * ROTATION_TIME
  {
    hide Hit;
    var sought := now + Seek(lastSector, newSector);
    Boundary(sought);
    var first := (sought + ToBoundary(sought)) / ROTATION_TIME;
    FirstPass(first, newSector);
    var slot := first + ModuloDiff(newSector, first);
    hide ModuloDiff;
    hide ToBoundary;
    assert now + Latency(lastSector, bufferInit, now, newSector, writing) == (slot + 1) * ROTATION_TIME;
  }

  /** The track buffer answers exactly the reads of the current track whose sector has passed the head completely,
      since the buffer began to fill, by the end of the slot that `now` is in. */
  lemma HitIsExact(lastSector: Sector, bufferInit: nat, now: nat, newSector: Sector, writing: bool)
    requires bufferInit % ROTATION_TIME == 0
    ensures Hit(lastSector, bufferInit, now, newSector, writing) <==>
              && !writing && newSector / SECTORS_PER_TRACK == lastSector / SECTORS_PER_TRACK
              && exists q: nat :: q * ROTATION_TIME >= bufferInit && Passes(q, newSector)
                                  && (q + 1) * ROTATION_TIME <= now + ToBoundary(now)
  {
    var slot := bufferInit / ROTATION_TIME;
    FirstPass(slot, newSector);
    Boundary(now);
    var first := slot + ModuloDiff(newSector, slot);
    hide ModuloDiff;
    var timeAfter := now + ToBoundary(now);
    assert Quotient(timeAfter - bufferInit, ROTATION_TIME) > first - slot <==> (first + 1) * ROTATION_TIME <= timeAfter;
    if q: nat :| q * ROTATION_TIME >= bufferInit && Passes(q, newSector) && (q + 1) * ROTATION_TIME <= timeAfter {
      assert q >= first;
    }
  }

  /** The buffer answers in the time of one sector, and so whatever it answers has passed the head completely by the
      time the request completes. */
  lemma HitIsRead(lastSector: Sector, bufferInit: nat, now: nat, newSector: Sector, writing: bool)
    requires bufferInit % ROTATION_TIME == 0
    requires Hit(lastSector, bufferInit, now, newSector, writing)
    ensures var done := now + Latency(lastSector, bufferInit, now, newSector, writing);
            exists q: nat :: q * ROTATION_TIME >= bufferInit && Passes(q, newSector) && (q + 1) * ROTATION_TIME <= done
    ensures Latency(lastSector, bufferInit, now, newSector, writing) == ROTATION_TIME
  {
    HitIsExact(lastSector, bufferInit, now, newSector, writing);
    Boundary(now);
    hide Hit;
    var q: nat :| q * ROTATION_TIME >= bufferInit && Passes(q, newSector)
                  && (q + 1) * ROTATION_TIME <= now + ToBoundary(now);
    assert (q + 1) * ROTATION_TIME <= now + Latency(lastSector, bufferInit, now, newSector, writing);
  }

  /** But not always by the time of the request: half way through the first pass of sector 0 there is a hit. */
  lemma HitBeforeItHasPassed()
    ensures Hit(0, 0, 250, 0, false)
    ensures !exists q: nat :: q * ROTATION_TIME >= 0 && Passes(q, 0) && (q + 1) * ROTATION_TIME <= 250
  {
  }

  /** That happens exactly when the slot in which the request comes is the first in which the sector passes. */
  lemma HitTooEarly(lastSector: Sector, bufferInit: nat, now: nat, newSector: Sector)
    requires bufferInit % ROTATION_TIME == 0 && bufferInit <= now
    requires Hit(lastSector, bufferInit, now, newSector, false)
    ensures (exists q: nat :: q * ROTATION_TIME >= bufferInit && Passes(q, newSector) && (q + 1) * ROTATION_TIME <= now)
            <==> !(now % ROTATION_TIME != 0 && Passes(now / ROTATION_TIME, newSector)
                   && now / ROTATION_TIME - bufferInit / ROTATION_TIME < SECTORS_PER_TRACK)
  {
    HitIsExact(lastSector, bufferInit, now, newSector, false);
    hide Hit;
    var slot, here := bufferInit / ROTATION_TIME, now / ROTATION_TIME;
    FirstPass(slot, newSector);
    var first := slot + ModuloDiff(newSector, slot);
    hide ModuloDiff;
    var q: nat :| q * ROTATION_TIME >= bufferInit && Passes(q, newSector)
                  && (q + 1) * ROTATION_TIME <= now + ToBoundary(now);
    assert q >= first && (first + 1) * ROTATION_TIME <= now + ToBoundary(now);
    assert first * ROTATION_TIME >= bufferInit;
    assert (first + 1) * ROTATION_TIME <= now <==> now % ROTATION_TIME == 0 || first < here;
    if Passes(here, newSector) && here - slot < SECTORS_PER_TRACK {
      SamePass(slot, here, first, newSector);
    }
  }

  lemma SamePass(slot: nat, q: nat, r: nat, sector: nat)
    requires Passes(q, sector) && Passes(r, sector)
    requires slot <= q < slot + SECTORS_PER_TRACK && slot <= r < slot + SECTORS_PER_TRACK
    ensures q == r
  {
  }

  // ---------------------------------------------------------------------
  // The disk as an object
  // ---------------------------------------------------------------------

  class Disk {
    var active: bool
    var lastSector: Sector
    var bufferInit: nat

    constructor ()
      ensures !active && lastSector == 0 && bufferInit == 0
    {
      active, lastSector, bufferInit := false, 0, 0;
    }

    method TimeToSeek(newSector: Sector, now: nat) returns (seek: nat, rotation: nat)
      ensures seek == Seek(lastSector, newSector) && rotation == ToBoundary(now + seek)
    {
      var newTrack := newSector / SECTORS_PER_TRACK;
      var oldTrack := lastSector / SECTORS_PER_TRACK;
      seek := Abs(newTrack - oldTrack) * SEEK_TIME;
      var over := (now + seek) % ROTATION_TIME;
      rotation := 0;
      if over > 0 {
        rotation := ROTATION_TIME - over;
      }
    }

    method ComputeLatency(newSector: Sector, writing: bool, now: nat) returns (ticks: nat)
      ensures ticks == Latency(lastSector, bufferInit, now, newSector, writing)
    {
      hide ModuloDiff;
      hide ToBoundary;
      hide Seek;
      var seek, rotation := TimeToSeek(newSector, now);
      var timeAfter := now + seek + rotation;
      if !writing && seek == 0
         && Quotient(timeAfter - bufferInit, ROTATION_TIME) > ModuloDiff(newSector, bufferInit / ROTATION_TIME) {
        return ROTATION_TIME;
      }
      rotation := rotation + ModuloDiff(newSector, timeAfter / ROTATION_TIME) * ROTATION_TIME;
      return seek + rotation + ROTATION_TIME;
    }

    method UpdateLast(newSector: Sector, now: nat)
      modifies this
      ensures lastSector == newSector && active == old(active)
      ensures bufferInit == BufferAfter(old(lastSector), old(bufferInit), now, newSector)
    {
      var seek, rotate := TimeToSeek(newSector, now);
      if seek != 0 {
        bufferInit := now + seek + rotate;
      }
      lastSector := newSector;
    }

    /** ReadRequest and WriteRequest: returns the delay after which CallBack is to be called. */
    method Request(sector: Sector, writing: bool, now: nat) returns (ticks: nat)
      requires !active
      modifies this
      ensures (State(now), ticks) == Requested(old(State(now)), sector, writing)
    {
      ticks := ComputeLatency(sector, writing, now);
      active := true;
      UpdateLast(sector, now);
    }

    method CallBack()
      modifies this
      ensures !active && lastSector == old(lastSector) && bufferInit == old(bufferInit)
    {
      active := false;
    }

    ghost function State(now: nat): DiskState
      reads this
    {
      DiskState(now, active, lastSector, bufferInit)
    }
  }

  // ---------------------------------------------------------------------
  // Whole runs
  // ---------------------------------------------------------------------

  datatype DiskState = DiskState(now: nat, active: bool, lastSector: Sector, bufferInit: nat)

  function BufferAfter(lastSector: Sector, bufferInit: nat, now: nat, newSector: Sector): (time: nat) {
    var seek := Seek(lastSector, newSector);
    if seek != 0 then now + seek + ToBoundary(now + seek) else bufferInit
  }

  function Requested(d: DiskState, sector: Sector, writing: bool): (r: (DiskState, nat)) {
    (DiskState(d.now, true, sector, BufferAfter(d.lastSector, d.bufferInit, d.now, sector)),
     Latency(d.lastSector, d.bufferInit, d.now, sector, writing))
  }

  /** A request that is called back `late` ticks after it is due, and then `idle` ticks without one. */
  datatype Visit = Visit(sector: Sector, writing: bool, late: nat, idle: nat)

  function Visited(d: DiskState, v: Visit): (d': DiskState) {
    var (d1, ticks) := Requested(d, v.sector, v.writing);
    d1.(active := false, now := d.now + ticks + v.late + v.idle)
  }

  function VisitedAll(d: DiskState, vs: seq<Visit>): (d': DiskState) {
    if vs == [] then d else Visited(VisitedAll(d, vs[..|vs| - 1]), vs[|vs| - 1])
  }

  /** Between requests: the buffer began to fill on a sector boundary, and not in the future. */
  predicate Settled(d: DiskState) {
    !d.active && d.bufferInit % ROTATION_TIME == 0 && d.bufferInit <= d.now
  }

  /** The buffer starts, if the head moves, when the seek is over, which is before the request completes. */
  lemma VisitSettles(d: DiskState, v: Visit)
    requires Settled(d)
    ensures Settled(Visited(d, v)) && Visited(d, v).now > d.now
  {
    Boundary(d.now + Seek(d.lastSector, v.sector));
    hide ModuloDiff;
    hide ToBoundary;
    hide Seek;
  }

  /** Over every run of requests. */
  lemma {:induction false} RunsSettle(d: DiskState, vs: seq<Visit>)
    requires Settled(d)
    ensures Settled(VisitedAll(d, vs)) && VisitedAll(d, vs).now >= d.now
  {
    hide Settled;
    hide Visited;
    if vs != [] {
      RunsSettle(d, vs[..|vs| - 1]);
      VisitSettles(VisitedAll(d, vs[..|vs| - 1]), vs[|vs| - 1]);
    }
  }

  /** A request that stays on the track leaves the buffer filling; one that moves the head restarts it at the first
      sector boundary after the seek. */
  lemma BufferRestarts(d: DiskState, v: Visit)
    ensures Visited(d, v).lastSector == v.sector
    ensures Track(v.sector) == Track(d.lastSector) ==> Visited(d, v).bufferInit == d.bufferInit
    ensures Track(v.sector) != Track(d.lastSector) ==>
              var start, sought := Visited(d, v).bufferInit, d.now + Seek(d.lastSector, v.sector);
              start % ROTATION_TIME == 0 && sought <= start < sought + ROTATION_TIME
  {
    Boundary(d.now + Seek(d.lastSector, v.sector));
    hide ToBoundary;
    hide Latency;
  }

  /** Over every run, the track buffer goes back to the last request that moved the head: it began to fill at the first
      sector boundary after that seek, and later requests on the same track have not restarted it. */
  lemma {:induction false} BufferGoesBackToTheLastSeek(d: DiskState, vs: seq<Visit>, k: nat)
    requires k < |vs|
    requires Track(vs[k].sector) != Track(VisitedAll(d, vs[..k]).lastSector)
    requires forall i | k < i < |vs| :: Track(vs[i].sector) == Track(vs[k].sector)
    ensures var before, after := VisitedAll(d, vs[..k]), VisitedAll(d, vs);
            var sought := before.now + Seek(before.lastSector, vs[k].sector);
            && after.bufferInit % ROTATION_TIME == 0 && sought <= after.bufferInit < sought + ROTATION_TIME
            && Track(after.lastSector) == Track(vs[k].sector)
  {
    hide Visited;
    hide Track;
    var n := |vs| - 1;
    BufferRestarts(VisitedAll(d, vs[..n]), vs[n]);
    if k < n {
      assert vs[..n][..k] == vs[..k];
      BufferGoesBackToTheLastSeek(d, vs[..n], k);
    }
  }
}
