/** When a service of the health monitor that keeps sending in time can be called late: exactly. */
module FalseAlarms {
  import opened Basics
  import opened Health
  import opened HealthMachine

  // ---- Punctual services ------------------------------------------------------------------------------

  function OfService(beats: seq<Heartbeat>, id: Term): seq<Heartbeat>
    decreases |beats|
  {
    if beats == [] then []
    else
      var last := beats[|beats| - 1];
      OfService(beats[..|beats| - 1], id) + if last.serviceId == id then [last] else []
  }

  lemma OfServiceSnoc(beats: seq<Heartbeat>, h: Heartbeat, id: Term)
    ensures OfService(beats + [h], id) == OfService(beats, id) + if h.serviceId == id then [h] else []
  {
  }

  /** At most 30 seconds old. */
  predicate InTime(clock: int, h: Heartbeat) {
    h.timestamp.At? && clock <= h.timestamp.sec + HEALTHY_THRESHOLD
  }

  /** The last heartbeat handled for the service is in time. */
  predicate Timely(s: Sys, id: Term) {
    var beats := OfService(s.past.handled, id);
    beats != [] && InTime(s.clock, beats[|beats| - 1])
  }

  /** The time of the last heartbeat handled for the service. */
  function LastTime(s: Sys, id: Term): int
    requires Timely(s, id)
  {
    var beats := OfService(s.past.handled, id);
    beats[|beats| - 1].timestamp.sec
  }

  predicate Holds(s: Sys, p: nat, id: Term) {
    p < |s.procs| && s.procs[p].Holding? && s.procs[p].h.serviceId == id
  }

  /** The service's heartbeats keep being handled in time, all through the run. */
  ghost predicate Punctual(s: Sys, steps: seq<Step>, id: Term)
    decreases |steps|
  {
    Timely(s, id) && (steps != [] ==> Enabled(s, steps[0]) && Punctual(Apply(s, steps[0]), steps[1..], id))
  }

  lemma HandledAfter(s: Sys, step: Step, id: Term)
    requires Enabled(s, step)
    ensures OfService(Apply(s, step).past.handled, id)
         == OfService(s.past.handled, id) + if step.Insert? && Holds(s, step.p, id) then [s.procs[step.p].h] else []
    ensures !step.Tick? ==> Apply(s, step).clock == s.clock
  {
    if step.Insert? {
      OfServiceSnoc(s.past.handled, s.procs[step.p].h, id);
    } else {
      assert Apply(s, step).past.handled == s.past.handled;
    }
  }

  /** Only an insert for the service changes what was last handled for it. */
  lemma LastHandled(s: Sys, step: Step, id: Term)
    requires Enabled(s, step)
    ensures step.Insert? && Holds(s, step.p, id) && InTime(s.clock, s.procs[step.p].h) ==>
              Timely(Apply(s, step), id) && LastTime(Apply(s, step), id) == s.procs[step.p].h.timestamp.sec
    ensures step.Insert? && Holds(s, step.p, id) && !InTime(s.clock, s.procs[step.p].h) ==> !Timely(Apply(s, step), id)
    ensures !(step.Insert? && Holds(s, step.p, id)) && Timely(s, id) && !step.Tick? ==>
              Timely(Apply(s, step), id) && LastTime(Apply(s, step), id) == LastTime(s, id)
  {
    HandledAfter(s, step, id);
  }

  // ---- Staying healthy ----------------------------------------------------------------------------------

  /** The stored time is not before that of the last handled heartbeat. */
  predicate NotBehind(s: Sys, id: Term)
    requires Timely(s, id) && id in s.table
  {
    s.table[id].timestamp.At? ==> LastTime(s, id) <= s.table[id].timestamp.sec
  }

  /** A copy some processor can still insert in time is healthy. */
  ghost predicate HoldersHealthy(s: Sys, id: Term) {
    forall p: nat :: Holds(s, p, id) && InTime(s.clock, s.procs[p].h) ==> s.procs[p].copy.status == Healthy
  }

  /** The pass under way will not write the service's entry. */
  predicate PassSkips(updater: Updater, id: Term) {
    !updater.Idle? && id in updater.copies && updater.copies[id].timestamp.At? ==>
      Class(updater.now - updater.copies[id].timestamp.sec) == updater.copies[id].status
  }

  ghost predicate Steady(s: Sys, id: Term)
    requires Timely(s, id)
  {
    id in s.table && s.table[id].status == Healthy && NotBehind(s, id) && HoldersHealthy(s, id)
    && PassSkips(s.updater, id)
  }

  /** The pass under way began at an earlier time, and no entry it has to list has gone. */
  predicate PassBegan(s: Sys) {
    && (!s.updater.Idle? ==> s.updater.now <= s.clock)
    && (s.updater.Listing? ==> s.updater.due <= s.table.Keys)
  }

  lemma {:induction false} PassBeganAlways(s: Sys, steps: seq<Step>)
    requires PassBegan(s) && Run(s, steps)
    ensures PassBegan(Final(s, steps))
    decreases |steps|
  {
    if steps != [] {
      PassBeganAlways(Apply(s, steps[0]), steps[1..]);
    }
  }

  lemma HoldersStep(s: Sys, step: Step, id: Term)
    requires Timely(s, id) && Steady(s, id) && Enabled(s, step)
    ensures HoldersHealthy(Apply(s, step), id)
  {
    var t := Apply(s, step);
    forall p: nat | Holds(t, p, id) && InTime(t.clock, t.procs[p].h) ensures t.procs[p].copy.status == Healthy {
      if step.Lookup? && step.p == p {
        assert t.procs[p].copy == s.table[id];
      } else {
        assert Holds(s, p, id) && InTime(s.clock, s.procs[p].h);
      }
    }
  }

  lemma SteadyStep(s: Sys, step: Step, id: Term)
    requires Timely(s, id) && Steady(s, id) && PassBegan(s) && Enabled(s, step) && Timely(Apply(s, step), id)
    ensures Steady(Apply(s, step), id) && PassBegan(Apply(s, step))
    ensures step.WriteEntry? ==> Apply(s, step).table[id] == s.table[id]
  {
    HoldersStep(s, step, id);
    LastHandled(s, step, id);
    if step.Insert? && s.procs[step.p].h.serviceId == id {
      assert Holds(s, step.p, id);
    }
  }

  /** No step of the pass changes the service's record. */
  ghost predicate PassKeepsAway(s: Sys, steps: seq<Step>, id: Term)
    requires Run(s, steps)
    decreases |steps|
  {
    steps == [] ||
    (var t := Apply(s, steps[0]);
     && (steps[0].WriteEntry? && id in s.table ==> id in t.table && t.table[id] == s.table[id])
     && PassKeepsAway(t, steps[1..], id))
  }

  ghost predicate StillHealthy(s: Sys, steps: seq<Step>, id: Term) {
    Run(s, steps) && id in Final(s, steps).table && Final(s, steps).table[id].status == Healthy
  }

  lemma {:induction false} SteadyStays(s: Sys, steps: seq<Step>, id: Term)
    requires Punctual(s, steps, id) && Steady(s, id) && PassBegan(s)
    ensures StillHealthy(s, steps, id) && PassKeepsAway(s, steps, id)
    decreases |steps|
  {
    if steps != [] {
      SteadyStep(s, steps[0], id);
      SteadyStays(Apply(s, steps[0]), steps[1..], id);
    }
  }

  // ---- False alarms -------------------------------------------------------------------------------------

  /** Some punctual continuation ends with the service not stored as healthy. */
  ghost predicate CanAlarm(s: Sys, id: Term) {
    exists steps :: Punctual(s, steps, id) && Run(s, steps) && !StillHealthy(s, steps, id)
  }

  lemma AlarmNow(s: Sys, id: Term)
    requires Timely(s, id) && id in s.table && s.table[id].status != Healthy
    ensures CanAlarm(s, id)
  {
    assert Punctual(s, [], id) && Run(s, []) && !StillHealthy(s, [], id);
  }

  lemma AlarmAfter(s: Sys, step: Step, id: Term)
    requires Timely(s, id) && Enabled(s, step) && CanAlarm(Apply(s, step), id)
    ensures CanAlarm(s, id)
  {
    var t := Apply(s, step);
    var rest :| Punctual(t, rest, id) && Run(t, rest) && !StillHealthy(t, rest, id);
    var steps := [step] + rest;
    assert steps[1..] == rest;
    assert Punctual(s, steps, id) && Run(s, steps) && Final(s, steps) == Final(t, rest);
  }

  /** A step that brings a listing nearer its end. */
  ghost function NextListed(s: Sys): (step: Step)
    requires s.updater.Listing? && PassBegan(s)
    ensures Enabled(s, step) && (step.ReadEntry? || step.EndListing?)
    ensures Left(Apply(s, step).updater) < Left(s.updater) && PassBegan(Apply(s, step))
  {
    if s.updater.due <= s.updater.copies.Keys then EndListing
    else
      var id :| id in s.updater.due && id !in s.updater.copies;
      assert s.updater.due - s.updater.copies[id := s.table[id]].Keys == s.updater.due - s.updater.copies.Keys - {id};
      ReadEntry(id)
  }

  /** How far a pass is from its end. */
  function Left(updater: Updater): nat {
    match updater
    case Idle => 0
    case Writing(_, copies) => 1 + |copies|
    case Listing(_, copies, due) => 2 + |copies| + 2 * |due - copies.Keys|
  }

  /** A step that brings the writing back nearer its end. */
  ghost function NextWritten(s: Sys): (step: Step)
    requires s.updater.Writing?
    ensures Enabled(s, step) && (step.WriteEntry? || step.EndPass?)
    ensures Left(Apply(s, step).updater) < Left(s.updater) && !Apply(s, step).updater.Listing?
  {
    if s.updater.copies == map[] then EndPass
    else
      var id :| id in s.updater.copies.Keys;
      assert (s.updater.copies - {id}).Keys == s.updater.copies.Keys - {id};
      WriteEntry(id)
  }

  /** A step of the pass under way that brings it nearer its end and changes nothing of a service whose
      entry it leaves alone. */
  lemma PassOn(s: Sys, id: Term) returns (step: Step)
    requires !s.updater.Idle? && PassBegan(s) && id in s.table && PassSkips(s.updater, id)
    ensures Enabled(s, step) && !step.Lookup? && !step.Insert? && !step.Tick?
    ensures Left(Apply(s, step).updater) < Left(s.updater) && PassBegan(Apply(s, step))
    ensures id in Apply(s, step).table && Apply(s, step).table[id] == s.table[id]
    ensures Apply(s, step).procs == s.procs && Apply(s, step).clock == s.clock
  {
    step := if s.updater.Listing? then NextListed(s) else NextWritten(s);
  }

  /** The pass under way holds an entry that it will call late. */
  lemma AlarmByCopy(s: Sys, id: Term)
    requires Timely(s, id) && id in s.table && PassBegan(s) && !PassSkips(s.updater, id)
    requires Class(s.updater.now - s.updater.copies[id].timestamp.sec) != Healthy
    ensures CanAlarm(s, id)
    decreases Left(s.updater)
  {
    var step := if s.updater.Listing? then NextListed(s) else WriteEntry(id);
    LastHandled(s, step, id);
    if s.updater.Listing? {
      AlarmByCopy(Apply(s, step), id);
    } else {
      AlarmNow(Apply(s, step), id);
    }
    AlarmAfter(s, step, id);
  }

  /** A whole pass finds the stored time too old. */
  lemma AlarmByPass(s: Sys, id: Term)
    requires Timely(s, id) && id in s.table && s.updater.Idle? && s.table[id].timestamp.At?
    requires Class(s.clock - s.table[id].timestamp.sec) != Healthy
    ensures CanAlarm(s, id)
  {
    if s.table[id].status != Healthy {
      AlarmNow(s, id);
      return;
    }
    var a := Apply(s, BeginPass);
    LastHandled(s, BeginPass, id);
    LastHandled(a, ReadEntry(id), id);
    AlarmByCopy(Apply(a, ReadEntry(id)), id);
    AlarmAfter(a, ReadEntry(id), id);
    AlarmAfter(s, BeginPass, id);
  }

  lemma AlarmByRead(s: Sys, step: Step, id: Term)
    requires Timely(s, id) && id in s.table && s.table[id].status == Healthy && PassBegan(s)
    requires PassSkips(s.updater, id) && Enabled(s, step) && !PassSkips(Apply(s, step).updater, id)
    requires Timely(Apply(s, step), id) && id in Apply(s, step).table && PassBegan(Apply(s, step))
    ensures CanAlarm(Apply(s, step), id)
  {
    assert step == ReadEntry(id);
    AlarmByCopy(Apply(s, step), id);
  }

  /** With the stored time behind, the pass under way ends, the clock runs on as long as it may, and
      the next pass calls the service late; unless already the one under way does. */
  lemma AlarmBehind(s: Sys, id: Term)
    requires Timely(s, id) && id in s.table && !NotBehind(s, id) && PassSkips(s.updater, id) && PassBegan(s)
    ensures CanAlarm(s, id)
    decreases Left(s.updater)
  {
    if s.table[id].status != Healthy {
      AlarmNow(s, id);
    } else if s.updater.Idle? {
      var step := Tick(LastTime(s, id) + HEALTHY_THRESHOLD);
      AlarmByPass(Apply(s, step), id);
      AlarmAfter(s, step, id);
    } else {
      var step := PassOn(s, id);
      var t := Apply(s, step);
      LastHandled(s, step, id);
      if PassSkips(t.updater, id) {
        AlarmBehind(t, id);
      } else {
        AlarmByRead(s, step, id);
      }
      AlarmAfter(s, step, id);
    }
  }

  lemma AlarmByHolder(s: Sys, id: Term)
    requires Timely(s, id) && id in s.table && !HoldersHealthy(s, id)
    ensures CanAlarm(s, id)
  {
    var p: nat :| Holds(s, p, id) && InTime(s.clock, s.procs[p].h) && s.procs[p].copy.status != Healthy;
    LastHandled(s, Insert(p), id);
    AlarmNow(Apply(s, Insert(p)), id);
    AlarmAfter(s, Insert(p), id);
  }

  /** A processor that can take up a heartbeat without the service ceasing to be punctual. */
  predicate Usable(s: Sys, p: nat, id: Term) {
    p < |s.procs| && (Holds(s, p, id) ==> InTime(s.clock, s.procs[p].h))
  }

  /** A heartbeat newer than the clock and than a given time. */
  function Newer(id: Term, clock: int, sec: int): Heartbeat {
    Heartbeat(id, At(1 + if clock < sec then sec else clock), Nil, Nil)
  }

  /** The pass under way puts an entry back that it changes: after one more heartbeat, that is an entry
      with a time before the last one. */
  lemma AlarmByWrite(s: Sys, id: Term, p: nat)
    requires Timely(s, id) && id in s.table && !PassSkips(s.updater, id) && Usable(s, p, id) && PassBegan(s)
    ensures CanAlarm(s, id)
    decreases if s.procs[p].Holding? then 1 else 0
  {
    if s.procs[p].Holding? {
      LastHandled(s, Insert(p), id);
      AlarmByWrite(Apply(s, Insert(p)), id, p);
      AlarmAfter(s, Insert(p), id);
      return;
    }
    var h := Newer(id, s.clock, s.updater.copies[id].timestamp.sec);
    var a := Apply(s, Lookup(p, h));
    var b := Apply(a, Insert(p));
    LastHandled(s, Lookup(p, h), id);
    LastHandled(a, Insert(p), id);
    AlarmByWriteBack(b, id);
    AlarmAfter(a, Insert(p), id);
    AlarmAfter(s, Lookup(p, h), id);
  }

  lemma AlarmByWriteBack(s: Sys, id: Term)
    requires Timely(s, id) && id in s.table && !PassSkips(s.updater, id) && PassBegan(s)
    requires s.updater.copies[id].timestamp.sec < LastTime(s, id)
    ensures CanAlarm(s, id)
    decreases Left(s.updater)
  {
    var step := if s.updater.Listing? then NextListed(s) else WriteEntry(id);
    LastHandled(s, step, id);
    if s.updater.Listing? {
      AlarmByWriteBack(Apply(s, step), id);
    } else {
      AlarmBehind(Apply(s, step), id);
    }
    AlarmAfter(s, step, id);
  }

  // ---- When no processor can take anything up ---------------------------------------------------------------

  /** Every processor holds a heartbeat of the service that is overdue already. */
  ghost predicate Stuck(s: Sys, id: Term) {
    forall p: nat :: !Usable(s, p, id)
  }

  /** Entry `k` has no time, and the pass under way has listed it or may list it yet. */
  predicate Crasher(s: Sys, k: Term) {
    !s.updater.Idle? &&
    if k in s.updater.copies then s.updater.copies[k].timestamp.Min?
    else s.updater.Listing? && k in s.table && s.table[k].timestamp.Min?
  }

  /** Nothing more can be handled, and the entry the pass will put back is healthy and not behind; the
      stored one counts only when the pass may crash before it gets there. */
  ghost predicate Mended(s: Sys, id: Term)
    requires Timely(s, id)
  {
    && id in s.table && s.table[id].status == Healthy && Stuck(s, id) && !PassSkips(s.updater, id)
    && Class(s.updater.now - s.updater.copies[id].timestamp.sec) == Healthy
    && LastTime(s, id) <= s.updater.copies[id].timestamp.sec
    && (NotBehind(s, id) || forall k :: !Crasher(s, k))
  }

  lemma StuckStep(s: Sys, step: Step, id: Term)
    requires Stuck(s, id) && Enabled(s, step) && Timely(Apply(s, step), id)
    ensures Stuck(Apply(s, step), id) && !step.Lookup? && !step.Insert?
  {
    var t := Apply(s, step);
    LastHandled(s, step, id);
    assert step.Lookup? || step.Insert? ==> !Usable(s, step.p, id);
    forall p: nat ensures !Usable(t, p, id) {
      assert !Usable(s, p, id);
    }
  }

  lemma MendedStep(s: Sys, step: Step, id: Term)
    requires Timely(s, id) && Mended(s, id) && PassBegan(s) && Enabled(s, step) && Timely(Apply(s, step), id)
    ensures Steady(Apply(s, step), id) || Mended(Apply(s, step), id)
    ensures PassBegan(Apply(s, step))
  {
    var t := Apply(s, step);
    StuckStep(s, step, id);
    LastHandled(s, step, id);
    assert HoldersHealthy(t, id) by {
      assert forall p: nat :: Holds(t, p, id) && InTime(t.clock, t.procs[p].h) ==> Usable(t, p, id);
    }
    if step.WriteEntry? {
      assert s.updater.copies[step.id].timestamp.Min? ==> Crasher(s, step.id);
    }
    forall k | Crasher(t, k) ensures Crasher(s, k) {
    }
  }

  lemma {:induction false} MendedStays(s: Sys, steps: seq<Step>, id: Term)
    requires Punctual(s, steps, id) && Mended(s, id) && PassBegan(s)
    ensures StillHealthy(s, steps, id)
    decreases |steps|
  {
    if steps != [] {
      var t := Apply(s, steps[0]);
      MendedStep(s, steps[0], id);
      if Steady(t, id) {
        SteadyStays(t, steps[1..], id);
      } else {
        MendedStays(t, steps[1..], id);
      }
    }
  }

  /** The pass crashes at an entry without a time, and the entry it would have mended stays behind. */
  lemma AlarmByCrash(s: Sys, id: Term, k: Term)
    requires Timely(s, id) && id in s.table && PassBegan(s) && !NotBehind(s, id) && !PassSkips(s.updater, id)
    requires Crasher(s, k)
    ensures CanAlarm(s, id)
    decreases if k in s.updater.copies then 0 else 1, Left(s.updater)
  {
    if s.updater.Listing? {
      var step := if k in s.updater.copies then NextListed(s) else ReadEntry(k);
      LastHandled(s, step, id);
      AlarmByCrash(Apply(s, step), id, k);
      AlarmAfter(s, step, id);
    } else {
      LastHandled(s, WriteEntry(k), id);
      AlarmBehind(Apply(s, WriteEntry(k)), id);
      AlarmAfter(s, WriteEntry(k), id);
    }
  }

  lemma AlarmOtherwise(s: Sys, id: Term)
    requires Timely(s, id) && id in s.table && s.table[id].status == Healthy && PassBegan(s)
    requires !Steady(s, id) && !Mended(s, id)
    ensures CanAlarm(s, id)
  {
    if PassSkips(s.updater, id) {
      if HoldersHealthy(s, id) {
        AlarmBehind(s, id);
      } else {
        AlarmByHolder(s, id);
      }
    } else if !Stuck(s, id) {
      var p: nat :| Usable(s, p, id);
      AlarmByWrite(s, id, p);
    } else if Class(s.updater.now - s.updater.copies[id].timestamp.sec) != Healthy {
      AlarmByCopy(s, id);
    } else if s.updater.copies[id].timestamp.sec < LastTime(s, id) {
      AlarmByWriteBack(s, id);
    } else {
      var k :| Crasher(s, k);
      AlarmByCrash(s, id, k);
    }
  }

  // ---- Main results ---------------------------------------------------------------------------------------

  /** No false alarm, exactly. Whatever is in flight, a service stored as healthy stays healthy in every
      punctual continuation, with any other services and any passes, if and only if its stored time
      is not before that of its last handled heartbeat, every copy that can still be inserted in time
      is healthy, and the pass under way leaves its entry alone; or else no processor can take
      anything up and the pass mends the entry. */
  lemma NoFalseAlarmExactly(s: Sys, id: Term)
    requires Timely(s, id) && id in s.table && s.table[id].status == Healthy && PassBegan(s)
    ensures (forall steps :: Punctual(s, steps, id) ==> StillHealthy(s, steps, id)) <==> Steady(s, id) || Mended(s, id)
  {
    if Steady(s, id) || Mended(s, id) {
      forall steps | Punctual(s, steps, id) ensures StillHealthy(s, steps, id) {
        if Steady(s, id) {
          SteadyStays(s, steps, id);
        } else {
          MendedStays(s, steps, id);
        }
      }
    } else {
      AlarmOtherwise(s, id);
    }
  }

  /** So it is in every state the monitor reaches from an empty table. */
  lemma NoFalseAlarmFromStart(processors: nat, clock: int, before: seq<Step>, id: Term)
    requires Run(Start(processors, clock), before)
    requires var s := Final(Start(processors, clock), before);
             Timely(s, id) && id in s.table && s.table[id].status == Healthy
    ensures var s := Final(Start(processors, clock), before);
            (forall after :: Punctual(s, after, id) ==> StillHealthy(s, after, id)) <==> Steady(s, id) || Mended(s, id)
  {
    PassBeganAlways(Start(processors, clock), before);
    NoFalseAlarmExactly(Final(Start(processors, clock), before), id);
  }
}
