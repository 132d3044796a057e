/** When the health monitor can lose a heartbeat of a service that keeps sending in time: exactly. */
module LostHeartbeats {
  import opened Basics
  import opened Health
  import opened HealthMachine
  import opened FalseAlarms

  /** No pass under way, and no copy of the service in any processor. */
  ghost predicate AtRest(s: Sys, id: Term) {
    s.updater.Idle? && forall p: nat :: !Holds(s, p, id)
  }

  // ---- Lost heartbeats ------------------------------------------------------------------------------------

  /** A heartbeat of the service is taken up only when none of it is in flight. */
  ghost predicate InTurn(s: Sys, step: Step, id: Term) {
    step.Lookup? && step.h.serviceId == id ==> forall p: nat :: !Holds(s, p, id)
  }

  /** Punctual, and one heartbeat after the other. */
  ghost predicate OneByOne(s: Sys, steps: seq<Step>, id: Term)
    decreases |steps|
  {
    && Timely(s, id)
    && (steps != [] ==> Enabled(s, steps[0]) && InTurn(s, steps[0], id) && OneByOne(Apply(s, steps[0]), steps[1..], id))
  }

  function InsertedBy(s: Sys, step: Step, id: Term): seq<Heartbeat> {
    if step.Insert? && Holds(s, step.p, id) then [s.procs[step.p].h] else []
  }

  /** The heartbeats of the service inserted during a run, in order. */
  ghost function InsertedIn(s: Sys, steps: seq<Step>, id: Term): seq<Heartbeat>
    requires Run(s, steps)
    decreases |steps|
  {
    if steps == [] then [] else InsertedBy(s, steps[0], id) + InsertedIn(Apply(s, steps[0]), steps[1..], id)
  }

  ghost predicate OneHolder(s: Sys, id: Term) {
    forall p: nat, q: nat :: Holds(s, p, id) && Holds(s, q, id) ==> p == q
  }

  /** At most one processor holds the service, and its copy is the stored record. */
  ghost predicate CopiesCurrent(s: Sys, id: Term) {
    OneHolder(s, id) && forall p: nat :: Holds(s, p, id) ==> id in s.table && s.procs[p].copy == s.table[id]
  }

  lemma CopiesStep(s: Sys, step: Step, id: Term)
    requires id in s.table && CopiesCurrent(s, id) && Enabled(s, step) && InTurn(s, step, id)
    requires step.WriteEntry? ==> id in Apply(s, step).table && Apply(s, step).table[id] == s.table[id]
    ensures CopiesCurrent(Apply(s, step), id) && id in Apply(s, step).table
    ensures Apply(s, step).table[id] == if InsertedBy(s, step, id) == [] then s.table[id]
                                        else Merge(s.table[id], InsertedBy(s, step, id)[0])
  {
    var t := Apply(s, step);
    match step
    case Lookup(q, h) =>
      assert forall p: nat :: Holds(t, p, id) ==> (p == q && h.serviceId == id) || Holds(s, p, id);
    case Insert(q) =>
      assert forall p: nat :: Holds(t, p, id) ==> Holds(s, p, id) && p != q;
      assert s.procs[q].h.serviceId == id ==> Holds(s, q, id);
    case _ =>
      assert forall p: nat :: Holds(t, p, id) ==> Holds(s, p, id);
  }

  /** While a steady service's heartbeats come one by one, none is lost: its record is the one they
      give when merged one after the other, and no step of a pass changes it. */
  lemma {:induction false} NothingLost(s: Sys, steps: seq<Step>, id: Term)
    requires OneByOne(s, steps, id) && Steady(s, id) && PassBegan(s) && CopiesCurrent(s, id)
    ensures StillHealthy(s, steps, id) && PassKeepsAway(s, steps, id)
    ensures Final(s, steps).table[id] == MergeAll(s.table[id], InsertedIn(s, steps, id))
    decreases |steps|
  {
    if steps != [] {
      var t := Apply(s, steps[0]);
      SteadyStep(s, steps[0], id);
      CopiesStep(s, steps[0], id);
      NothingLost(t, steps[1..], id);
      var first, rest := InsertedBy(s, steps[0], id), InsertedIn(t, steps[1..], id);
      if first != [] {
        assert (first + rest)[1..] == rest;
      } else {
        assert first + rest == rest;
      }
    }
  }

  /** Everything but the status of the record is what the heartbeats inserted during the run make it. */
  ghost predicate KeepsAll(s: Sys, steps: seq<Step>, id: Term)
    requires id in s.table
  {
    && Run(s, steps) && id in Final(s, steps).table
    && Facts(Final(s, steps).table[id]) == Facts(MergeAll(s.table[id], InsertedIn(s, steps, id)))
  }

  ghost predicate LosesLast(s: Sys, steps: seq<Step>, id: Term) {
    && OneByOne(s, steps, id) && Run(s, steps) && id in Final(s, steps).table
    && (var beats := InsertedIn(s, steps, id);
        beats != [] && Final(s, steps).table[id].timestamp != beats[|beats| - 1].timestamp)
  }

  /** Some continuation with the heartbeats punctual and one by one ends with the last one's time gone. */
  ghost predicate CanLose(s: Sys, id: Term) {
    exists steps :: LosesLast(s, steps, id)
  }

  lemma LoseAfter(s: Sys, step: Step, id: Term)
    requires Timely(s, id) && Enabled(s, step) && InTurn(s, step, id) && CanLose(Apply(s, step), id)
    ensures CanLose(s, id)
  {
    var t := Apply(s, step);
    var rest :| LosesLast(t, rest, id);
    var steps := [step] + rest;
    assert steps[1..] == rest;
    assert InsertedIn(s, steps, id) == InsertedBy(s, step, id) + InsertedIn(t, rest, id);
    assert LosesLast(s, steps, id);
  }

  /** A heartbeat is inserted between the pass's reading of the entry and its writing back. */
  lemma LoseByWrite(s: Sys, id: Term, p: nat)
    requires Timely(s, id) && s.updater.Writing? && !PassSkips(s.updater, id)
    requires Holds(s, p, id) && InTime(s.clock, s.procs[p].h)
    requires s.procs[p].h.timestamp != s.updater.copies[id].timestamp
    ensures CanLose(s, id)
  {
    var a := Apply(s, Insert(p));
    var b := Apply(a, WriteEntry(id));
    LastHandled(s, Insert(p), id);
    LastHandled(a, WriteEntry(id), id);
    var steps := [Insert(p), WriteEntry(id)];
    assert steps[1..] == [WriteEntry(id)] && [WriteEntry(id)][1..] == [];
    assert OneByOne(b, [], id) && Run(b, []) && Final(b, []) == b && InsertedIn(b, [], id) == [];
    assert OneByOne(a, [WriteEntry(id)], id) && Run(a, [WriteEntry(id)]) && Final(a, [WriteEntry(id)]) == b;
    assert InsertedIn(a, [WriteEntry(id)], id) == [];
    assert InsertedIn(s, steps, id) == [s.procs[p].h];
    assert LosesLast(s, steps, id);
  }

  /** Some processor holds a heartbeat of the service that is overdue already, or there is none: no
      more of the service can be handled in time. */
  ghost predicate Blocked(s: Sys, id: Term) {
    |s.procs| == 0 || exists p: nat :: Holds(s, p, id) && !InTime(s.clock, s.procs[p].h)
  }

  /** What is in flight is not newer than the stored record. */
  ghost predicate HeldBefore(s: Sys, id: Term)
    requires id in s.table
  {
    exists p: nat :: Holds(s, p, id) && InTime(s.clock, s.procs[p].h) && s.table[id].timestamp.At?
                     && s.procs[p].h.timestamp.sec <= s.table[id].timestamp.sec
  }

  /** The pass under way changes no more than the status. */
  predicate PassKeepsFacts(s: Sys, id: Term)
    requires id in s.table
  {
    PassSkips(s.updater, id) || Facts(s.updater.copies[id]) == Facts(s.table[id])
  }

  ghost predicate Safe(s: Sys, id: Term)
    requires Timely(s, id) && id in s.table
  {
    if Blocked(s, id) then PassKeepsFacts(s, id)
    else s.table[id].status == Healthy && PassSkips(s.updater, id) && (NotBehind(s, id) || HeldBefore(s, id))
  }

  // ---- Nothing lost -----------------------------------------------------------------------------------------

  /** What a safe state keeps: once blocked, the copy in flight no longer matters. */
  ghost predicate Kept(s: Sys, id: Term)
    requires Timely(s, id)
  {
    && id in s.table && Safe(s, id) && PassBegan(s) && OneHolder(s, id) && (!Blocked(s, id) ==> CopiesCurrent(s, id))
  }

  lemma BlockedStays(s: Sys, step: Step, id: Term)
    requires Timely(s, id) && Blocked(s, id) && OneHolder(s, id)
    requires Enabled(s, step) && InTurn(s, step, id) && Timely(Apply(s, step), id)
    ensures Blocked(Apply(s, step), id) && OneHolder(Apply(s, step), id)
    ensures forall p: nat :: step == Insert(p) || (step.Lookup? && step.p == p) ==>
              !Holds(s, p, id) && !Holds(Apply(s, step), p, id)
  {
    var t := Apply(s, step);
    LastHandled(s, step, id);
    if |s.procs| > 0 {
      var p: nat :| Holds(s, p, id) && !InTime(s.clock, s.procs[p].h);
      assert Holds(t, p, id) && !InTime(t.clock, t.procs[p].h);
    }
    assert forall q: nat :: Holds(t, q, id) ==> Holds(s, q, id);
  }

  lemma BlockedStep(s: Sys, step: Step, id: Term)
    requires Timely(s, id) && Kept(s, id) && Blocked(s, id)
    requires Enabled(s, step) && InTurn(s, step, id) && Timely(Apply(s, step), id)
    ensures Kept(Apply(s, step), id) && Blocked(Apply(s, step), id) && InsertedBy(s, step, id) == []
    ensures Facts(Apply(s, step).table[id]) == Facts(s.table[id])
  {
    BlockedStays(s, step, id);
  }

  lemma OpenSkips(s: Sys, step: Step, id: Term)
    requires Timely(s, id) && Kept(s, id) && !Blocked(s, id) && Enabled(s, step)
    ensures PassSkips(Apply(s, step).updater, id)
  {
    if step == ReadEntry(id) && s.table[id].timestamp.At? {
      assert s.clock <= s.table[id].timestamp.sec + HEALTHY_THRESHOLD;
    }
  }

  lemma OpenTimes(s: Sys, step: Step, id: Term)
    requires Timely(s, id) && Kept(s, id) && !Blocked(s, id)
    requires Enabled(s, step) && InTurn(s, step, id) && Timely(Apply(s, step), id) && id in Apply(s, step).table
    requires Apply(s, step).table[id] == if InsertedBy(s, step, id) == [] then s.table[id]
                                         else Merge(s.table[id], InsertedBy(s, step, id)[0])
    ensures Blocked(Apply(s, step), id) || NotBehind(Apply(s, step), id) || HeldBefore(Apply(s, step), id)
  {
    var t := Apply(s, step);
    LastHandled(s, step, id);
    if InsertedBy(s, step, id) == [] {
      assert step.Tick? ==> t.past.handled == s.past.handled;
      assert LastTime(t, id) == LastTime(s, id);
      if HeldBefore(s, id) && !Blocked(t, id) {
        var p: nat :| Holds(s, p, id) && s.procs[p].h.timestamp.sec <= s.table[id].timestamp.sec;
        assert Holds(t, p, id) && t.procs[p] == s.procs[p];
      }
    }
  }

  lemma OpenStep(s: Sys, step: Step, id: Term)
    requires Timely(s, id) && Kept(s, id) && !Blocked(s, id)
    requires Enabled(s, step) && InTurn(s, step, id) && Timely(Apply(s, step), id)
    ensures Kept(Apply(s, step), id)
    ensures Apply(s, step).table[id] == if InsertedBy(s, step, id) == [] then s.table[id]
                                        else Merge(s.table[id], InsertedBy(s, step, id)[0])
  {
    OpenSkips(s, step, id);
    CopiesStep(s, step, id);
    OpenTimes(s, step, id);
    assert PassBegan(Apply(s, step));
  }

  lemma {:induction false} SafeKeepsAll(s: Sys, steps: seq<Step>, id: Term)
    requires OneByOne(s, steps, id) && Kept(s, id)
    ensures KeepsAll(s, steps, id)
    decreases |steps|
  {
    if steps != [] {
      var t := Apply(s, steps[0]);
      var first := InsertedBy(s, steps[0], id);
      if Blocked(s, id) {
        BlockedStep(s, steps[0], id);
      } else {
        OpenStep(s, steps[0], id);
      }
      SafeKeepsAll(t, steps[1..], id);
      var rest := InsertedIn(t, steps[1..], id);
      if first != [] {
        assert (first + rest)[1..] == rest;
        assert MergeAll(s.table[id], first + rest) == MergeAll(t.table[id], rest);
      } else {
        assert first + rest == rest;
        MergeAllFacts(t.table[id], s.table[id], rest);
      }
    }
  }

  // ---- How a heartbeat gets lost ------------------------------------------------------------------------------

  ghost predicate NoneHeld(s: Sys, id: Term) {
    forall p: nat :: !Holds(s, p, id)
  }

  /** A processor is freed of another service's heartbeat. */
  lemma FreedStep(s: Sys, p: nat, id: Term)
    requires p < |s.procs| && s.procs[p].Holding? && NoneHeld(s, id)
    ensures NoneHeld(Apply(s, Insert(p)), id) && Apply(s, Insert(p)).procs[p].Free?
    ensures id in s.table ==> id in Apply(s, Insert(p)).table && Apply(s, Insert(p)).table[id] == s.table[id]
    ensures Timely(s, id) ==> Timely(Apply(s, Insert(p)), id) && LastTime(Apply(s, Insert(p)), id) == LastTime(s, id)
  {
    assert !Holds(s, p, id);
    LastHandled(s, Insert(p), id);
    assert forall q: nat :: Holds(Apply(s, Insert(p)), q, id) ==> Holds(s, q, id);
  }

  lemma ListOn(s: Sys, id: Term) returns (step: Step)
    requires Timely(s, id) && PassBegan(s) && NoneHeld(s, id) && s.updater.Listing? && !PassSkips(s.updater, id)
    ensures Enabled(s, step) && !step.Lookup?
    ensures var t := Apply(s, step);
            && Timely(t, id) && PassBegan(t) && NoneHeld(t, id) && t.procs == s.procs
            && !PassSkips(t.updater, id) && Left(t.updater) < Left(s.updater)
  {
    step := NextListed(s);
    var t := Apply(s, step);
    LastHandled(s, step, id);
    assert t.procs == s.procs;
    forall p: nat ensures !Holds(t, p, id) {
      assert !Holds(s, p, id);
    }
  }

  /** The pass under way holds an entry it will change: one more heartbeat, and it is overwritten. */
  lemma LoseByCopy(s: Sys, id: Term, p: nat)
    requires Timely(s, id) && PassBegan(s) && NoneHeld(s, id) && p < |s.procs| && !PassSkips(s.updater, id)
    ensures CanLose(s, id)
    decreases Left(s.updater)
  {
    if s.updater.Listing? {
      var step := ListOn(s, id);
      LoseByCopy(Apply(s, step), id, p);
      LoseAfter(s, step, id);
    } else if s.procs[p].Holding? {
      FreedStep(s, p, id);
      LoseByWriteBack(Apply(s, Insert(p)), id, p);
      LoseAfter(s, Insert(p), id);
    } else {
      LoseByWriteBack(s, id, p);
    }
  }

  lemma LoseByWriteBack(s: Sys, id: Term, p: nat)
    requires Timely(s, id) && NoneHeld(s, id) && p < |s.procs| && s.procs[p].Free?
    requires s.updater.Writing? && !PassSkips(s.updater, id)
    ensures CanLose(s, id)
  {
    var h := Newer(id, s.clock, s.updater.copies[id].timestamp.sec);
    LastHandled(s, Lookup(p, h), id);
    LoseByWrite(Apply(s, Lookup(p, h)), id, p);
    LoseAfter(s, Lookup(p, h), id);
  }

  /** Whatever status is stored, if a pass begun now would rewrite it, then a heartbeat can be lost. */
  lemma RewriteLoses(s: Sys, id: Term)
    requires Timely(s, id) && AtRest(s, id) && |s.procs| > 0
    requires id in s.table && s.table[id].timestamp.At?
    requires Class(s.clock - s.table[id].timestamp.sec) != s.table[id].status
    ensures CanLose(s, id)
  {
    var a := Apply(s, BeginPass);
    var b := Apply(a, ReadEntry(id));
    LastHandled(s, BeginPass, id);
    LastHandled(a, ReadEntry(id), id);
    assert forall q: nat :: Holds(b, q, id) ==> Holds(s, q, id);
    LoseByCopy(b, id, 0);
    LoseAfter(a, ReadEntry(id), id);
    LoseAfter(s, BeginPass, id);
  }

  lemma LoseFromRest(s: Sys, id: Term, p: nat)
    requires Timely(s, id) && AtRest(s, id) && p < |s.procs| && id in s.table
    requires !(s.table[id].status == Healthy && NotBehind(s, id))
    ensures CanLose(s, id)
    decreases if s.procs[p].Holding? then 1 else 0
  {
    if s.procs[p].Holding? {
      FreedStep(s, p, id);
      LoseFromRest(Apply(s, Insert(p)), id, p);
      LoseAfter(s, Insert(p), id);
    } else if s.table[id].status == Healthy {
      var step := Tick(LastTime(s, id) + HEALTHY_THRESHOLD);
      var t := Apply(s, step);
      assert forall q: nat :: Holds(t, q, id) ==> Holds(s, q, id);
      RewriteLoses(t, id);
      LoseAfter(s, step, id);
    } else {
      LoseUnhealthy(s, id, p);
    }
  }

  /** A heartbeat just in makes the next pass rewrite a status that is not healthy. */
  lemma LoseUnhealthy(s: Sys, id: Term, p: nat)
    requires Timely(s, id) && AtRest(s, id) && p < |s.procs| && s.procs[p].Free? && id in s.table
    requires s.table[id].status != Healthy
    ensures CanLose(s, id)
  {
    var h := Heartbeat(id, At(s.clock), Nil, Nil);
    var a := Apply(s, Lookup(p, h));
    var b := Apply(a, Insert(p));
    LastHandled(s, Lookup(p, h), id);
    LastHandled(a, Insert(p), id);
    assert forall q: nat :: Holds(b, q, id) ==> Holds(s, q, id);
    RewriteLoses(b, id);
    LoseAfter(a, Insert(p), id);
    LoseAfter(s, Lookup(p, h), id);
  }

  /** With nothing held, the pass under way first comes to its end, or to an entry it will change. */
  lemma LoseNoneHeld(s: Sys, id: Term)
    requires Timely(s, id) && PassBegan(s) && NoneHeld(s, id) && |s.procs| > 0 && id in s.table
    requires !(s.table[id].status == Healthy && NotBehind(s, id) && PassSkips(s.updater, id))
    ensures CanLose(s, id)
    decreases Left(s.updater)
  {
    if !PassSkips(s.updater, id) {
      LoseByCopy(s, id, 0);
    } else if s.updater.Idle? {
      LoseFromRest(s, id, 0);
    } else {
      var step := PassOn(s, id);
      LastHandled(s, step, id);
      assert forall q: nat :: Holds(Apply(s, step), q, id) ==> Holds(s, q, id);
      LoseNoneHeld(Apply(s, step), id);
      LoseAfter(s, step, id);
    }
  }

  /** The held heartbeat is inserted, and the rest goes on from there. */
  lemma LoseByInsert(s: Sys, id: Term, p: nat)
    requires Timely(s, id) && PassBegan(s) && id in s.table && CopiesCurrent(s, id)
    requires Holds(s, p, id) && InTime(s.clock, s.procs[p].h)
    requires s.table[id].status != Healthy || !PassSkips(s.updater, id)
    ensures CanLose(s, id)
  {
    var t := Apply(s, Insert(p));
    LastHandled(s, Insert(p), id);
    assert forall q: nat :: Holds(t, q, id) ==> Holds(s, q, id) && q != p;
    LoseNoneHeld(t, id);
    LoseAfter(s, Insert(p), id);
  }

  /** A pass reads the entry while a newer heartbeat is held, and calls it late. */
  lemma LoseByRead(s: Sys, id: Term, p: nat)
    requires Timely(s, id) && s.updater.Idle? && id in s.table && CopiesCurrent(s, id)
    requires Holds(s, p, id) && InTime(s.clock, s.procs[p].h)
    requires s.table[id].timestamp.At? && Class(s.clock - s.table[id].timestamp.sec) != s.table[id].status
    ensures CanLose(s, id)
  {
    var a := Apply(s, BeginPass);
    var b := Apply(a, ReadEntry(id));
    LastHandled(s, BeginPass, id);
    LastHandled(a, ReadEntry(id), id);
    assert b.procs == s.procs && b.table == s.table;
    assert forall q: nat :: Holds(b, q, id) ==> Holds(s, q, id);
    LoseByInsert(b, id, p);
    LoseAfter(a, ReadEntry(id), id);
    LoseAfter(s, BeginPass, id);
  }

  /** The held heartbeat is newer than a stored time that is behind: there is a time when the entry is
      old and the heartbeat is not. */
  lemma LoseHeldAtIdle(s: Sys, id: Term, p: nat)
    requires Timely(s, id) && s.updater.Idle? && id in s.table && CopiesCurrent(s, id)
    requires Holds(s, p, id) && InTime(s.clock, s.procs[p].h)
    requires !NotBehind(s, id) && s.table[id].timestamp.sec < s.procs[p].h.timestamp.sec
    requires s.table[id].status == Healthy
    ensures CanLose(s, id)
  {
    var late := s.table[id].timestamp.sec + HEALTHY_THRESHOLD + 1;
    var step := Tick(if s.clock < late then late else s.clock);
    var t := Apply(s, step);
    assert t.procs == s.procs && t.table == s.table;
    assert forall q: nat :: Holds(t, q, id) ==> Holds(s, q, id);
    LoseByRead(t, id, p);
    LoseAfter(s, step, id);
  }

  lemma LoseHeld(s: Sys, id: Term, p: nat)
    requires Timely(s, id) && PassBegan(s) && id in s.table && CopiesCurrent(s, id)
    requires Holds(s, p, id) && InTime(s.clock, s.procs[p].h)
    requires !NotBehind(s, id) && s.table[id].timestamp.sec < s.procs[p].h.timestamp.sec
    ensures CanLose(s, id)
    decreases Left(s.updater)
  {
    if s.table[id].status != Healthy || !PassSkips(s.updater, id) {
      LoseByInsert(s, id, p);
    } else if s.updater.Idle? {
      LoseHeldAtIdle(s, id, p);
    } else {
      var step := PassOn(s, id);
      LastHandled(s, step, id);
      assert forall q: nat :: Holds(Apply(s, step), q, id) ==> Holds(s, q, id);
      LoseHeld(Apply(s, step), id, p);
      LoseAfter(s, step, id);
    }
  }

  // ---- Overwriting while nothing more is handled ------------------------------------------------------------

  /** Some continuation inserts nothing for the service and ends with other facts than `facts`. */
  ghost predicate CanOverwrite(s: Sys, id: Term, facts: (Term, Stamp, Term, Term)) {
    exists steps :: Overwrites(s, steps, id, facts)
  }

  ghost predicate Overwrites(s: Sys, steps: seq<Step>, id: Term, facts: (Term, Stamp, Term, Term)) {
    && OneByOne(s, steps, id) && Run(s, steps) && InsertedIn(s, steps, id) == []
    && id in Final(s, steps).table && Facts(Final(s, steps).table[id]) != facts
  }

  lemma OverwriteAfter(s: Sys, step: Step, id: Term, facts: (Term, Stamp, Term, Term))
    requires Timely(s, id) && Enabled(s, step) && !step.Lookup? && !step.Insert?
    requires CanOverwrite(Apply(s, step), id, facts)
    ensures CanOverwrite(s, id, facts)
  {
    var t := Apply(s, step);
    var rest :| Overwrites(t, rest, id, facts);
    var steps := [step] + rest;
    assert steps[1..] == rest;
    assert InsertedIn(s, steps, id) == InsertedBy(s, step, id) + InsertedIn(t, rest, id);
    assert Overwrites(s, steps, id, facts);
  }

  lemma OverwriteNow(s: Sys, id: Term, facts: (Term, Stamp, Term, Term))
    requires Timely(s, id) && id in s.table && Facts(s.table[id]) != facts
    ensures CanOverwrite(s, id, facts)
  {
    assert Overwrites(s, [], id, facts);
  }

  lemma OverwriteByCopy(s: Sys, id: Term, facts: (Term, Stamp, Term, Term))
    requires Timely(s, id) && PassBegan(s) && !PassSkips(s.updater, id) && Facts(s.updater.copies[id]) != facts
    ensures CanOverwrite(s, id, facts)
    decreases Left(s.updater)
  {
    if s.updater.Listing? {
      var step := NextListed(s);
      LastHandled(s, step, id);
      assert Apply(s, step).updater.copies[id] == s.updater.copies[id];
      OverwriteByCopy(Apply(s, step), id, facts);
      OverwriteAfter(s, step, id, facts);
    } else {
      LastHandled(s, WriteEntry(id), id);
      OverwriteNow(Apply(s, WriteEntry(id)), id, facts);
      OverwriteAfter(s, WriteEntry(id), id, facts);
    }
  }

  // ---- Main results -------------------------------------------------------------------------------------------

  lemma LoseOtherwise(s: Sys, id: Term)
    requires Timely(s, id) && PassBegan(s) && id in s.table && CopiesCurrent(s, id)
    requires !Blocked(s, id) && !Safe(s, id)
    ensures CanLose(s, id)
  {
    if NoneHeld(s, id) {
      LoseNoneHeld(s, id);
    } else {
      var p: nat :| Holds(s, p, id);
      if s.table[id].status != Healthy || !PassSkips(s.updater, id) {
        LoseByInsert(s, id, p);
      } else {
        LoseHeld(s, id, p);
      }
    }
  }

  /** Lost heartbeats, exactly, with a pass under way and a current copy of the service in flight: no
      continuation with its heartbeats punctual and one by one loses any of them if and only if it is
      stored as healthy, the pass leaves its entry alone, and its stored time is not before that of its
      last handled heartbeat, or not before the one in flight; or else no more of it can be handled in
      time and the pass changes no more than its status. */
  lemma NothingLostExactly(s: Sys, id: Term)
    requires Timely(s, id) && PassBegan(s) && id in s.table && CopiesCurrent(s, id)
    ensures (forall steps :: OneByOne(s, steps, id) ==> KeepsAll(s, steps, id)) <==> Safe(s, id)
  {
    if Safe(s, id) {
      forall steps | OneByOne(s, steps, id) ensures KeepsAll(s, steps, id) {
        SafeKeepsAll(s, steps, id);
      }
    } else if Blocked(s, id) {
      OverwriteByCopy(s, id, Facts(s.table[id]));
      var steps :| Overwrites(s, steps, id, Facts(s.table[id]));
      assert !KeepsAll(s, steps, id);
    } else {
      LoseOtherwise(s, id);
      var steps :| LosesLast(s, steps, id);
      MergeAllLast(s.table[id], InsertedIn(s, steps, id));
      assert !KeepsAll(s, steps, id);
    }
  }

  /** With nothing of the service in flight and no pass under way: exactly when it is stored as healthy
      with a time not before that of its last handled heartbeat. */
  lemma NothingLostAtRest(s: Sys, id: Term)
    requires Timely(s, id) && AtRest(s, id) && |s.procs| > 0 && id in s.table
    ensures (forall steps :: OneByOne(s, steps, id) ==> KeepsAll(s, steps, id)) <==>
              s.table[id].status == Healthy && NotBehind(s, id)
  {
    NothingLostExactly(s, id);
  }

  // ---- It happens -----------------------------------------------------------------------------------------

  function Early(id: Term): Heartbeat {
    Heartbeat(id, At(0), Nil, Nil)
  }

  function Late(id: Term): Heartbeat {
    Heartbeat(id, At(10), Nil, Nil)
  }

  /** A service heard once, at time 0, and the pass at time 10 about to write it back as healthy. */
  function AboutToWrite(id: Term): Sys {
    var listed := map[id := Merge(DEFAULT, Early(id))];
    Sys(10, listed, [Free], Writing(10, listed), Past({Early(id)}, [Early(id)], {10}))
  }

  /** A second heartbeat was handled before the pass wrote: the service is healthy with the older time. */
  function WrittenBack(id: Term): Sys {
    Sys(10, map[id := Merge(DEFAULT, Early(id)).(status := Healthy)], [Free], Idle,
        Past({Early(id), Late(id)}, [Early(id), Late(id)], {10}))
  }

  lemma ReachesAboutToWrite(id: Term) returns (steps: seq<Step>)
    ensures Run(Start(1, 0), steps) && Final(Start(1, 0), steps) == AboutToWrite(id)
  {
    var s0 := Start(1, 0);
    var s1 := Apply(s0, Lookup(0, Early(id)));
    var s2 := Apply(s1, Insert(0));
    var s3 := Apply(s2, Tick(10));
    var s4 := Apply(s3, BeginPass);
    var s5 := Apply(s4, ReadEntry(id));
    var s6 := AboutToWrite(id);
    assert s5.updater.copies == s6.updater.copies && Apply(s5, EndListing) == s6;
    steps := [];
    RunFirst(s5, EndListing, steps, s6, s6);
    steps := [EndListing] + steps;
    RunFirst(s4, ReadEntry(id), steps, s5, s6);
    steps := [ReadEntry(id)] + steps;
    RunFirst(s3, BeginPass, steps, s4, s6);
    steps := [BeginPass] + steps;
    RunFirst(s2, Tick(10), steps, s3, s6);
    steps := [Tick(10)] + steps;
    RunFirst(s1, Insert(0), steps, s2, s6);
    steps := [Insert(0)] + steps;
    RunFirst(s0, Lookup(0, Early(id)), steps, s1, s6);
    steps := [Lookup(0, Early(id))] + steps;
  }

  lemma WritesBack(id: Term) returns (steps: seq<Step>)
    ensures Run(AboutToWrite(id), steps) && Final(AboutToWrite(id), steps) == WrittenBack(id)
  {
    var s6 := AboutToWrite(id);
    var s7 := Apply(s6, Lookup(0, Late(id)));
    var s8 := Apply(s7, Insert(0));
    var s9 := Apply(s8, WriteEntry(id));
    var s10 := WrittenBack(id);
    assert s9.table == s10.table && s9.updater.copies == map[] && Apply(s9, EndPass) == s10;
    steps := [];
    RunFirst(s9, EndPass, steps, s10, s10);
    steps := [EndPass] + steps;
    RunFirst(s8, WriteEntry(id), steps, s9, s10);
    steps := [WriteEntry(id)] + steps;
    RunFirst(s7, Insert(0), steps, s8, s10);
    steps := [Insert(0)] + steps;
    RunFirst(s6, Lookup(0, Late(id)), steps, s7, s10);
    steps := [Lookup(0, Late(id))] + steps;
  }

  /** From an empty table, a pass that means to turn a service healthy puts back the record it listed
      over a heartbeat inserted since, though the heartbeats were punctual and handled one by one. */
  lemma HeartbeatCanBeLost(id: Term) returns (steps: seq<Step>)
    ensures Run(Start(1, 0), steps) && Final(Start(1, 0), steps) == WrittenBack(id)
    ensures Timely(WrittenBack(id), id) && WrittenBack(id).table[id].timestamp == At(0)
    ensures LastTime(WrittenBack(id), id) == 10
  {
    var a := ReachesAboutToWrite(id);
    var b := WritesBack(id);
    RunThen(Start(1, 0), a, b);
    steps := a + b;
    OfServiceSnoc([Early(id)], Late(id), id);
    assert [Early(id), Late(id)] == [Early(id)] + [Late(id)];
  }

  /** And then it is a false alarm: a service stored as healthy, with nothing in flight and its
      heartbeats punctual to the end, that a pass calls stale. */
  lemma FalseAlarmCanHappen(id: Term) returns (before: seq<Step>, after: seq<Step>)
    ensures Run(Start(1, 0), before) && Final(Start(1, 0), before) == WrittenBack(id)
    ensures AtRest(WrittenBack(id), id) && WrittenBack(id).table[id].status == Healthy
    ensures Punctual(WrittenBack(id), after, id) && Run(WrittenBack(id), after)
    ensures !StillHealthy(WrittenBack(id), after, id)
  {
    before := HeartbeatCanBeLost(id);
    AlarmBehind(WrittenBack(id), id);
    after :| Punctual(WrittenBack(id), after, id) && Run(WrittenBack(id), after)
             && !StillHealthy(WrittenBack(id), after, id);
  }
}
