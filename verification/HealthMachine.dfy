/** The health monitor under concurrency: message processors whose lookup and insert are separate
    steps, and a status pass that reads entries one by one and writes whole records back later. */
module HealthMachine {
  import opened Basics
  import opened Health

  /** A processor, free or between its lookup and its insert. */
  datatype Proc = Free | Holding(h: Heartbeat, copy: Record)

  /** The status pass: idle, listing the table, or writing changed entries of the list back. A listing
      returns every entry there was when it began, and may return ones inserted since. */
  datatype Updater =
    | Idle
    | Listing(now: int, copies: Table, due: set<Term>)
    | Writing(now: int, copies: Table)

  /** What has happened so far; no step depends on it. */
  datatype Past = Past(
    received: set<Heartbeat>,    // heartbeats some processor took up
    handled: seq<Heartbeat>,     // heartbeats inserted, in order
    passTimes: set<int>)         // times at which a pass began

  datatype Sys = Sys(clock: int, table: Table, procs: seq<Proc>, updater: Updater, past: Past)

  datatype Step =
    | Tick(to: int)
    | Lookup(p: nat, h: Heartbeat)
    | Insert(p: nat)
    | BeginPass
    | ReadEntry(id: Term)
    | EndListing
    | WriteEntry(id: Term)
    | EndPass

  function Start(processors: nat, clock: int): Sys {
    Sys(clock, map[], seq(processors, _ => Free), Idle, Past({}, [], {}))
  }

  predicate Enabled(s: Sys, step: Step) {
    match step
    case Tick(to) => s.clock <= to
    case Lookup(p, _) => p < |s.procs| && s.procs[p].Free?
    case Insert(p) => p < |s.procs| && s.procs[p].Holding?
    case BeginPass => s.updater.Idle?
    case ReadEntry(id) => s.updater.Listing? && id in s.table && id !in s.updater.copies
    case EndListing => s.updater.Listing? && s.updater.due <= s.updater.copies.Keys
    case WriteEntry(id) => s.updater.Writing? && id in s.updater.copies
    case EndPass => s.updater.Writing? && s.updater.copies == map[]
  }

  function Apply(s: Sys, step: Step): Sys
    requires Enabled(s, step)
  {
    match step
    case Tick(to) => s.(clock := to)
    case Lookup(p, h) =>
      s.(procs := s.procs[p := Holding(h, Existing(s.table, h.serviceId))],
         past := s.past.(received := s.past.received + {h}))
    case Insert(p) =>
      var h := s.procs[p].h;
      s.(procs := s.procs[p := Free],
         table := s.table[h.serviceId := Merge(s.procs[p].copy, h)],
         past := s.past.(handled := s.past.handled + [h]))
    case BeginPass =>
      s.(updater := Listing(s.clock, map[], s.table.Keys), past := s.past.(passTimes := s.past.passTimes + {s.clock}))
    case ReadEntry(id) => s.(updater := Listing(s.updater.now, s.updater.copies[id := s.table[id]], s.updater.due))
    case EndListing => s.(updater := Writing(s.updater.now, s.updater.copies))
    case WriteEntry(id) =>
      var copy := s.updater.copies[id];
      if copy.timestamp.Min? then s.(updater := Idle)   // the pass crashes
      else
        var status := Class(s.updater.now - copy.timestamp.sec);
        s.(updater := Writing(s.updater.now, s.updater.copies - {id}),
           table := if status != copy.status then s.table[id := copy.(status := status)] else s.table)
    case EndPass => s.(updater := Idle)
  }

  ghost predicate Run(s: Sys, steps: seq<Step>)
    decreases |steps|
  {
    steps == [] || (Enabled(s, steps[0]) && Run(Apply(s, steps[0]), steps[1..]))
  }

  ghost function Final(s: Sys, steps: seq<Step>): Sys
    requires Run(s, steps)
    decreases |steps|
  {
    if steps == [] then s else Final(Apply(s, steps[0]), steps[1..])
  }

  lemma RunFirst(s: Sys, step: Step, rest: seq<Step>, next: Sys, end: Sys)
    requires Enabled(s, step) && next == Apply(s, step) && Run(next, rest) && Final(next, rest) == end
    ensures Run(s, [step] + rest) && Final(s, [step] + rest) == end
  {
  }

  lemma {:induction false} RunThen(s: Sys, a: seq<Step>, b: seq<Step>)
    requires Run(s, a) && Run(Final(s, a), b)
    ensures Run(s, a + b) && Final(s, a + b) == Final(Final(s, a), b)
    decreases |a|
  {
    if a == [] {
      assert a + b == b;
    } else {
      assert (a + b)[1..] == a[1..] + b;
      RunThen(Apply(s, a[0]), a[1..], b);
    }
  }

  // ---- Nothing is made up ---------------------------------------------------------------------------

  ghost predicate SentTime(past: Past, id: Term, t: Stamp) {
    exists h :: h in past.received && h.serviceId == id && h.timestamp == t
  }

  ghost predicate SentStats(past: Past, id: Term, stats: Term) {
    exists h :: h in past.received && h.serviceId == id && h.stats == stats
  }

  ghost predicate SentData(past: Past, id: Term, data: Term) {
    exists h :: h in past.received && h.serviceId == id && h.data == data
  }

  /** A status some pass computes from a time the service sent. */
  ghost predicate ComputedStatus(past: Past, id: Term, status: Status) {
    exists now, sec :: now in past.passTimes && SentTime(past, id, At(sec)) && status == Class(now - sec)
  }

  /** Every field of the record was sent by service `id`, or is the default's. A message whose service
      id is null or false keeps the default's unknown id. */
  ghost predicate Genuine(past: Past, id: Term, r: Record) {
    && r.serviceId == (if id.Nil? || id.False? then Unknown else id)
    && SentTime(past, id, r.timestamp)
    && (r.stats == Nil || SentStats(past, id, r.stats))
    && (r.data == Nil || SentData(past, id, r.data))
    && (r.status == Offline || ComputedStatus(past, id, r.status))
  }

  ghost predicate GenuineTable(past: Past, table: Table) {
    forall id :: id in table ==> Genuine(past, id, table[id])
  }

  ghost predicate GenuineProcs(past: Past, procs: seq<Proc>) {
    forall p :: 0 <= p < |procs| && procs[p].Holding? ==>
      && procs[p].h in past.received
      && (procs[p].copy == DEFAULT || Genuine(past, procs[p].h.serviceId, procs[p].copy))
  }

  ghost predicate GenuineUpdater(past: Past, updater: Updater) {
    !updater.Idle? ==> updater.now in past.passTimes && GenuineTable(past, updater.copies)
  }

  ghost predicate AllGenuine(s: Sys) {
    GenuineTable(s.past, s.table) && GenuineProcs(s.past, s.procs) && GenuineUpdater(s.past, s.updater)
  }

  lemma GenuineLater(past: Past, later: Past, id: Term, r: Record)
    requires past.received <= later.received && past.passTimes <= later.passTimes && Genuine(past, id, r)
    ensures Genuine(later, id, r)
  {
  }

  lemma GenuineMerge(past: Past, copy: Record, h: Heartbeat)
    requires h in past.received && (copy == DEFAULT || Genuine(past, h.serviceId, copy))
    ensures Genuine(past, h.serviceId, Merge(copy, h))
  {
  }

  lemma GenuineStep(s: Sys, step: Step)
    requires AllGenuine(s) && Enabled(s, step)
    ensures AllGenuine(Apply(s, step)) && s.table.Keys <= Apply(s, step).table.Keys
  {
    var t := Apply(s, step);
    forall id, r | Genuine(s.past, id, r) ensures Genuine(t.past, id, r) {
      GenuineLater(s.past, t.past, id, r);
    }
    match step
    case Insert(p) =>
      GenuineMerge(s.past, s.procs[p].copy, s.procs[p].h);
    case WriteEntry(id) =>
      if s.updater.copies[id].timestamp.At? {
        GenuineStatus(s.past, id, s.updater.copies[id], s.updater.now);
      }
    case _ =>
  }

  lemma GenuineStatus(past: Past, id: Term, copy: Record, now: int)
    requires Genuine(past, id, copy) && now in past.passTimes && copy.timestamp.At?
    ensures Genuine(past, id, copy.(status := Class(now - copy.timestamp.sec)))
  {
  }

  /** Under any interleaving of any number of processors and the pass, lost updates included, every
      stored record and every copy in flight holds only what its own service sent, or defaults, and a
      status computed from a time it sent; and no key is ever lost. */
  lemma {:induction false} NothingMadeUp(s: Sys, steps: seq<Step>)
    requires AllGenuine(s) && Run(s, steps)
    ensures AllGenuine(Final(s, steps)) && s.table.Keys <= Final(s, steps).table.Keys
    decreases |steps|
  {
    if steps != [] {
      GenuineStep(s, steps[0]);
      NothingMadeUp(Apply(s, steps[0]), steps[1..]);
    }
  }

  lemma NothingMadeUpFromStart(processors: nat, clock: int, steps: seq<Step>)
    requires Run(Start(processors, clock), steps)
    ensures AllGenuine(Final(Start(processors, clock), steps))
  {
    NothingMadeUp(Start(processors, clock), steps);
  }
}
