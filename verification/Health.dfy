/** The health monitor: heartbeats merged into a table of service records, and the periodic pass that
    recalculates every record's status. Times are whole seconds, as the monitor compares them. */
module Health {
  import opened Basics

  /** A decoded JSON value, as far as truthiness and identity go; `Unknown` is the default record's
      service id, which no message can carry. */
  datatype Term = Nil | False | Unknown | Json(code: nat)

  predicate Truthy(t: Term) {
    !t.Nil? && !t.False?
  }

  /** `new || old`. */
  function Or(newer: Term, older: Term): Term {
    if Truthy(newer) then newer else older
  }

  /** A parsed time, or the atom that stands in for a timestamp that does not parse. */
  datatype Stamp = Min | At(sec: int)

  datatype Status = Healthy | Stale | Offline

  datatype Heartbeat = Heartbeat(serviceId: Term, timestamp: Stamp, stats: Term, data: Term)

  datatype Record = Record(serviceId: Term, timestamp: Stamp, status: Status, stats: Term, data: Term)

  const DEFAULT := Record(Unknown, Min, Offline, Nil, Nil)

  type Table = map<Term, Record>

  const HEALTHY_THRESHOLD := 30
  const STALE_THRESHOLD := 60

  /** The record after a heartbeat: a heartbeat has no status, and its timestamp always counts. */
  function Merge(r: Record, h: Heartbeat): Record {
    Record(Or(h.serviceId, r.serviceId), h.timestamp, r.status, Or(h.stats, r.stats), Or(h.data, r.data))
  }

  function Existing(table: Table, id: Term): Record {
    if id in table then table[id] else DEFAULT
  }

  function Handle(table: Table, h: Heartbeat): Table {
    table[h.serviceId := Merge(Existing(table, h.serviceId), h)]
  }

  function Class(age: int): Status {
    if age <= HEALTHY_THRESHOLD then Healthy else if age <= STALE_THRESHOLD then Stale else Offline
  }

  /** The record a pass at `now` wants; the pass cannot compute one for a record without a time. */
  function Recalculated(r: Record, now: int): Record {
    if r.timestamp.At? then r.(status := Class(now - r.timestamp.sec)) else r
  }

  /** A pass that got through the entries `visited`, seen as a map over the table. */
  function PassOver(table: Table, now: int, visited: set<Term>): Table {
    map id | id in table :: if id in visited then Recalculated(table[id], now) else table[id]
  }

  /** What a pass does to each entry: a status by the age in seconds for those it got through, no other
      field, and nothing to the rest. */
  lemma PassOverMeans(table: Table, now: int, visited: set<Term>, id: Term)
    requires id in table && (id in visited ==> table[id].timestamp.At?)
    ensures PassOver(table, now, visited).Keys == table.Keys
    ensures id !in visited ==> PassOver(table, now, visited)[id] == table[id]
    ensures id in visited ==>
              var age, r := now - table[id].timestamp.sec, PassOver(table, now, visited)[id];
              && r == table[id].(status := r.status)
              && (r.status == Healthy <==> age <= 30) && (r.status == Stale <==> 30 < age <= 60)
  {
  }

  // ---- The code -------------------------------------------------------------------------------

  /** The body of a message: not JSON, JSON whose handling raises (no timestamp, or no object), or a
      heartbeat. */
  datatype Message = NotJson | Raises | Beat(h: Heartbeat)

  class HeartbeatTable {
    var table: Table

    constructor ()
      ensures table == map[]
    {
      table := map[];
    }

    method HandleMessage(m: Message)
      modifies this
      ensures table == if m.Beat? then Handle(old(table), m.h) else old(table)
      ensures m.Beat? ==>
                && table.Keys == old(table).Keys + {m.h.serviceId}
                && (forall id :: id in old(table) && id != m.h.serviceId ==> table[id] == old(table)[id])
                && table[m.h.serviceId].timestamp == m.h.timestamp
      ensures m.Beat? && m.h.serviceId in old(table) ==>
                && (var r, was := table[m.h.serviceId], old(table)[m.h.serviceId];
                && r.status == was.status
                && r.stats == (if m.h.stats.Nil? || m.h.stats.False? then was.stats else m.h.stats)
                && r.data == (if m.h.data.Nil? || m.h.data.False? then was.data else m.h.data)
                && r.serviceId == (if m.h.serviceId.Nil? || m.h.serviceId.False? then was.serviceId else m.h.serviceId))
      ensures m.Beat? && m.h.serviceId !in old(table) ==>
                && (var r := table[m.h.serviceId];
                && r.status == Offline
                && r.stats == (if m.h.stats.Nil? || m.h.stats.False? then Nil else m.h.stats)
                && r.data == (if m.h.data.Nil? || m.h.data.False? then Nil else m.h.data)
                && r.serviceId == (if m.h.serviceId.Nil? || m.h.serviceId.False? then Unknown else m.h.serviceId))
    {
      match m
      case NotJson =>
      case Raises =>
      case Beat(h) =>
        var existing := if h.serviceId in table then table[h.serviceId] else DEFAULT;
        table := table[h.serviceId := Merge(existing, h)];
    }

    /** A pass with no heartbeat handled meanwhile. Entries come in no particular order, only changed
        ones are written back, and the pass dies at the first entry without a time. */
    method RecalculateAll(now: int) returns (crashed: bool, ghost visited: set<Term>)
      modifies this
      ensures table == PassOver(old(table), now, visited) && visited <= old(table).Keys
      ensures forall id :: id in visited ==> old(table)[id].timestamp.At?
      ensures crashed <==> exists id :: id in old(table) && old(table)[id].timestamp.Min?
      ensures !crashed ==> visited == old(table).Keys
    {
      var copies := table;
      var left := copies.Keys;
      visited := {};
      crashed := false;
      while left != {}
        invariant left <= copies.Keys && visited == copies.Keys - left
        invariant forall id :: id in visited ==> copies[id].timestamp.At?
        invariant table == PassOver(copies, now, visited)
        decreases |left|
      {
        ghost var some := SomeMember(left);
        var id :| id in left;
        left := left - {id};
        var state := copies[id];
        if state.timestamp.Min? {
          crashed := true;
          return;
        }
        var newStatus := Class(now - state.timestamp.sec);
        if newStatus != state.status {
          table := table[id := state.(status := newStatus)];
        }
        visited := visited + {id};
      }
    }
  }

  // ---- Sequential logs --------------------------------------------------------------------------

  datatype Event = Received(h: Heartbeat) | Pass(now: int, visited: set<Term>)

  function After(table: Table, e: Event): Table {
    match e
    case Received(h) => Handle(table, h)
    case Pass(now, visited) => PassOver(table, now, visited)
  }

  function Replay(table: Table, log: seq<Event>): Table
    decreases |log|
  {
    if log == [] then table else Replay(After(table, log[0]), log[1..])
  }

  /** The heartbeats of one service in a log, oldest first. */
  function BeatsOf(log: seq<Event>, id: Term): seq<Heartbeat>
    decreases |log|
  {
    if log == [] then []
    else (if log[0].Received? && log[0].h.serviceId == id then [log[0].h] else []) + BeatsOf(log[1..], id)
  }

  function LastStats(beats: seq<Heartbeat>): Option<Term>
    decreases |beats|
  {
    if beats == [] then None
    else if Truthy(beats[|beats| - 1].stats) then Some(beats[|beats| - 1].stats)
    else LastStats(beats[..|beats| - 1])
  }

  function LastData(beats: seq<Heartbeat>): Option<Term>
    decreases |beats|
  {
    if beats == [] then None
    else if Truthy(beats[|beats| - 1].data) then Some(beats[|beats| - 1].data)
    else LastData(beats[..|beats| - 1])
  }

  /** What is left of a record when its status is set aside. */
  function Facts(r: Record): (Term, Stamp, Term, Term) {
    (r.serviceId, r.timestamp, r.stats, r.data)
  }

  function MergeAll(r: Record, beats: seq<Heartbeat>): Record
    decreases |beats|
  {
    if beats == [] then r else MergeAll(Merge(r, beats[0]), beats[1..])
  }

  lemma {:induction false} MergeAllSnoc(r: Record, beats: seq<Heartbeat>, h: Heartbeat)
    ensures MergeAll(r, beats + [h]) == Merge(MergeAll(r, beats), h)
    decreases |beats|
  {
    if beats == [] {
      assert [h][1..] == [];
      assert MergeAll(Merge(r, h), []) == Merge(r, h);
      assert beats + [h] == [h];
    } else {
      assert (beats + [h])[1..] == beats[1..] + [h];
      MergeAllSnoc(Merge(r, beats[0]), beats[1..], h);
    }
  }

  lemma {:induction false} MergeAllFacts(r: Record, s: Record, beats: seq<Heartbeat>)
    requires Facts(r) == Facts(s)
    ensures Facts(MergeAll(r, beats)) == Facts(MergeAll(s, beats))
    decreases |beats|
  {
    if beats != [] {
      MergeAllFacts(Merge(r, beats[0]), Merge(s, beats[0]), beats[1..]);
    }
  }

  /** Everything but the status of a service's record comes from that service's own heartbeats. */
  lemma {:induction false} ReplayFacts(table: Table, log: seq<Event>, id: Term)
    ensures id in Replay(table, log) <==> id in table || BeatsOf(log, id) != []
    ensures id in Replay(table, log) ==>
              Facts(Replay(table, log)[id]) == Facts(MergeAll(Existing(table, id), BeatsOf(log, id)))
    decreases |log|
  {
    if log != [] {
      var next := After(table, log[0]);
      ReplayFacts(next, log[1..], id);
      if log[0].Received? && log[0].h.serviceId == id {
        assert BeatsOf(log, id)[0] == log[0].h && BeatsOf(log, id)[1..] == BeatsOf(log[1..], id);
      } else {
        assert BeatsOf(log, id) == BeatsOf(log[1..], id);
        assert Facts(Existing(next, id)) == Facts(Existing(table, id));
        MergeAllFacts(Existing(next, id), Existing(table, id), BeatsOf(log, id));
      }
    }
  }

  lemma {:induction false} MergeAllLast(r: Record, beats: seq<Heartbeat>)
    ensures MergeAll(r, beats).status == r.status
    ensures beats != [] ==> MergeAll(r, beats).timestamp == beats[|beats| - 1].timestamp
    ensures MergeAll(r, beats).stats == if LastStats(beats).Some? then LastStats(beats).value else r.stats
    ensures MergeAll(r, beats).data == if LastData(beats).Some? then LastData(beats).value else r.data
    decreases |beats|
  {
    if beats != [] {
      var front, last := beats[..|beats| - 1], beats[|beats| - 1];
      assert beats == front + [last];
      MergeAllSnoc(r, front, last);
      MergeAllLast(r, front);
    }
  }

  /** `k` is the place of the last of `beats` that has stats, or -1. */
  ghost predicate LastWithStats(beats: seq<Heartbeat>, k: int) {
    && -1 <= k < |beats|
    && (k >= 0 ==> !beats[k].stats.Nil? && !beats[k].stats.False?)
    && (forall j :: k < j < |beats| ==> beats[j].stats.Nil? || beats[j].stats.False?)
  }

  ghost predicate LastWithData(beats: seq<Heartbeat>, k: int) {
    && -1 <= k < |beats|
    && (k >= 0 ==> !beats[k].data.Nil? && !beats[k].data.False?)
    && (forall j :: k < j < |beats| ==> beats[j].data.Nil? || beats[j].data.False?)
  }

  lemma {:induction false} LastStatsAt(beats: seq<Heartbeat>) returns (k: int)
    ensures LastWithStats(beats, k)
    ensures LastStats(beats) == if k >= 0 then Some(beats[k].stats) else None
    decreases |beats|
  {
    k := |beats| - 1;
    if k >= 0 && (beats[k].stats.Nil? || beats[k].stats.False?) {
      k := LastStatsAt(beats[..k]);
    }
  }

  lemma {:induction false} LastDataAt(beats: seq<Heartbeat>) returns (k: int)
    ensures LastWithData(beats, k)
    ensures LastData(beats) == if k >= 0 then Some(beats[k].data) else None
    decreases |beats|
  {
    k := |beats| - 1;
    if k >= 0 && (beats[k].data.Nil? || beats[k].data.False?) {
      k := LastDataAt(beats[..k]);
    }
  }

  /** After any log of heartbeats and passes, a service that sent any has the timestamp of its last
      one, and the last stats and data it sent that were not null or false. */
  lemma LastValuesWin(log: seq<Event>, id: Term, k: int, l: int)
    requires BeatsOf(log, id) != [] && LastWithStats(BeatsOf(log, id), k) && LastWithData(BeatsOf(log, id), l)
    ensures id in Replay(map[], log)
    ensures var beats, r := BeatsOf(log, id), Replay(map[], log)[id];
            && r.timestamp == beats[|beats| - 1].timestamp
            && r.stats == (if k >= 0 then beats[k].stats else Nil)
            && r.data == (if l >= 0 then beats[l].data else Nil)
  {
    var beats := BeatsOf(log, id);
    ReplayFacts(map[], log, id);
    MergeAllLast(DEFAULT, beats);
    var m := LastStatsAt(beats);
    var n := LastDataAt(beats);
    assert m == k && n == l;
  }

  // ---- Merging is associative ---------------------------------------------------------------------

  /** Two heartbeats of one service folded into one before the table sees them. */
  function Premerge(first: Heartbeat, second: Heartbeat): Heartbeat {
    Heartbeat(Or(second.serviceId, first.serviceId), second.timestamp,
              Or(second.stats, first.stats), Or(second.data, first.data))
  }

  function PremergeAll(beats: seq<Heartbeat>): Heartbeat
    requires beats != []
    decreases |beats|
  {
    if |beats| == 1 then beats[0] else PremergeAll([Premerge(beats[0], beats[1])] + beats[2..])
  }

  /** Folding a batch into one heartbeat first, and merging that, gives the record merging them one
      by one does; folding is associative, so a batch may be cut anywhere. */
  lemma {:induction false} BatchesMayBePremerged(r: Record, beats: seq<Heartbeat>)
    requires beats != []
    ensures Merge(r, PremergeAll(beats)) == MergeAll(r, beats)
    ensures forall a, b, c :: Premerge(Premerge(a, b), c) == Premerge(a, Premerge(b, c))
    decreases |beats|
  {
    if |beats| == 1 {
      assert beats[1..] == [];
      assert MergeAll(Merge(r, beats[0]), []) == Merge(r, beats[0]);
    } else {
      var shorter := [Premerge(beats[0], beats[1])] + beats[2..];
      BatchesMayBePremerged(r, shorter);
      assert shorter[1..] == beats[2..] && beats[1..][1..] == beats[2..];
      assert Merge(r, Premerge(beats[0], beats[1])) == Merge(Merge(r, beats[0]), beats[1]);
      assert MergeAll(r, shorter) == MergeAll(Merge(r, shorter[0]), beats[2..]);
      assert MergeAll(r, beats) == MergeAll(Merge(Merge(r, beats[0]), beats[1]), beats[2..]);
    }
  }

  // ---- Passes with no heartbeat between -------------------------------------------------------------

  function Rank(s: Status): nat {
    match s case Healthy => 0 case Stale => 1 case Offline => 2
  }

  predicate Timed(table: Table) {
    forall id :: id in table ==> table[id].timestamp.At?
  }

  function Passes(table: Table, times: seq<int>): Table
    decreases |times|
  {
    if times == [] then table else Passes(PassOver(table, times[0], table.Keys), times[1..])
  }

  ghost predicate NonDecreasing(times: seq<int>) {
    forall i, j :: 0 <= i < j < |times| ==> times[i] <= times[j]
  }

  /** Only the last of a run of passes matters: the table is the old one with every status computed
      from that pass's time, and nothing else changed. */
  lemma {:induction false} PassesAreLast(table: Table, times: seq<int>)
    requires Timed(table) && times != []
    ensures Passes(table, times) == PassOver(table, times[|times| - 1], table.Keys)
    decreases |times|
  {
    var next := PassOver(table, times[0], table.Keys);
    if |times| == 1 {
      assert Passes(next, times[1..]) == next;
    } else {
      PassesAreLast(next, times[1..]);
      assert times[1..][|times| - 2] == times[|times| - 1];
      assert PassOver(next, times[|times| - 1], next.Keys) == PassOver(table, times[|times| - 1], table.Keys);
    }
  }

  /** Between passes at non-decreasing times a status only moves from healthy to stale to offline. */
  lemma StatusOnlyDegrades(table: Table, times: seq<int>, i: nat, j: nat, id: Term)
    requires Timed(table) && NonDecreasing(times) && i < j < |times| && id in table
    ensures Rank(StatusAt(table, times, i, id)) <= Rank(StatusAt(table, times, j, id))
  {
    StatusIsClass(table, times, i, id);
    StatusIsClass(table, times, j, id);
  }

  /** The status of a service after pass number `k`. */
  function StatusAt(table: Table, times: seq<int>, k: nat, id: Term): Status
    requires k < |times|
  {
    Existing(Passes(table, times[..k + 1]), id).status
  }

  lemma StatusIsClass(table: Table, times: seq<int>, k: nat, id: Term)
    requires Timed(table) && k < |times| && id in table
    ensures StatusAt(table, times, k, id) == Class(times[k] - table[id].timestamp.sec)
  {
    PassesAreLast(table, times[..k + 1]);
  }

  /** When a silent service is noticed. Passes start no later than P seconds after its last time T
      turned 61 seconds old and are at most P apart: then some pass at most T + 61 + P marks it
      offline, and so does every later one; no pass before T + 61 marks it offline, and none before
      T + 31 stale. */
  lemma DetectionLatency(table: Table, times: seq<int>, id: Term, period: nat)
    requires Timed(table) && NonDecreasing(times) && id in table
    ensures forall k :: 0 <= k < |times| ==>
              && (StatusAt(table, times, k, id) == Offline <==> times[k] >= table[id].timestamp.sec + 61)
              && (StatusAt(table, times, k, id) == Stale <==>
                    table[id].timestamp.sec + 31 <= times[k] < table[id].timestamp.sec + 61)
    ensures times != [] && times[0] <= table[id].timestamp.sec + 61 + period
              && (forall k :: 0 < k < |times| ==> times[k] - times[k - 1] <= period)
              && times[|times| - 1] >= table[id].timestamp.sec + 61
            ==> exists k :: 0 <= k < |times| && times[k] <= table[id].timestamp.sec + 61 + period
                  && forall j :: k <= j < |times| ==> StatusAt(table, times, j, id) == Offline
  {
    var t := table[id].timestamp.sec;
    forall k | 0 <= k < |times| ensures StatusAt(table, times, k, id) == Class(times[k] - t) {
      StatusIsClass(table, times, k, id);
    }
    if times != [] && times[0] <= t + 61 + period && times[|times| - 1] >= t + 61
        && (forall k :: 0 < k < |times| ==> times[k] - times[k - 1] <= period) {
      var k := FirstAtLeast(times, t + 61);
      assert times[k] <= t + 61 + period;
      assert forall j :: k <= j < |times| ==> StatusAt(table, times, j, id) == Offline;
    }
  }

  lemma FirstAtLeast(times: seq<int>, bound: int) returns (k: nat)
    requires NonDecreasing(times) && times != [] && times[|times| - 1] >= bound
    ensures k < |times| && times[k] >= bound && (k > 0 ==> times[k - 1] < bound)
    ensures forall j :: k <= j < |times| ==> times[j] >= bound
  {
    k := |times| - 1;
    while k > 0 && times[k - 1] >= bound
      invariant k < |times| && times[k] >= bound
    {
      k := k - 1;
    }
    assert forall j :: k <= j < |times| ==> times[k] <= times[j];
  }
}
