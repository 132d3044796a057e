/** The health monitor's code as steps of its machine: a message, or a whole pass, with nothing in
    between leaves what `HandleMessage` and `RecalculateAll` promise. */
module HealthCorrespondence {
  import opened Basics
  import opened Health
  import opened HealthMachine

  lemma {:induction false} RunSnoc(s: Sys, steps: seq<Step>, step: Step)
    requires Run(s, steps) && Enabled(Final(s, steps), step)
    ensures Run(s, steps + [step]) && Final(s, steps + [step]) == Apply(Final(s, steps), step)
    decreases |steps|
  {
    if steps == [] {
      assert steps + [step] == [step] && [step][1..] == [];
      assert Run(Apply(s, step), []);
    } else {
      assert (steps + [step])[1..] == steps[1..] + [step];
      RunSnoc(Apply(s, steps[0]), steps[1..], step);
    }
  }

  /** A processor that looks up and inserts with nothing in between handles the message as the
      sequential code does, whatever the other processors and the pass hold. */
  lemma HandleAlone(s: Sys, p: nat, h: Heartbeat)
    requires Enabled(s, Lookup(p, h))
    ensures var steps := [Lookup(p, h)] + [Insert(p)];
            && Run(s, steps)
            && Final(s, steps).table == Handle(s.table, h)
            && Final(s, steps).procs == s.procs && Final(s, steps).updater == s.updater
  {
    RunSnoc(s, [], Lookup(p, h));
    assert [] + [Lookup(p, h)] == [Lookup(p, h)];
    RunSnoc(s, [Lookup(p, h)], Insert(p));
    assert s.procs[p := Free] == s.procs;
  }

  // ---- A whole pass -------------------------------------------------------------------------------

  function Reads(ids: seq<Term>): seq<Step>
    decreases |ids|
  {
    if ids == [] then [] else Reads(ids[..|ids| - 1]) + [ReadEntry(ids[|ids| - 1])]
  }

  function Writes(ids: seq<Term>): seq<Step>
    decreases |ids|
  {
    if ids == [] then [] else Writes(ids[..|ids| - 1]) + [WriteEntry(ids[|ids| - 1])]
  }

  predicate Distinct(ids: seq<Term>) {
    forall i, j :: 0 <= i < j < |ids| ==> ids[i] != ids[j]
  }

  function Entries(table: Table, ids: seq<Term>): Table
    requires forall id :: id in ids ==> id in table
  {
    map id | id in ids :: table[id]
  }

  lemma {:induction false} ReadsAll(s: Sys, ids: seq<Term>)
    requires s.updater.Listing? && s.updater.copies == map[]
    requires Distinct(ids) && forall id :: id in ids ==> id in s.table
    ensures Run(s, Reads(ids))
    ensures Final(s, Reads(ids))
         == s.(updater := Listing(s.updater.now, Entries(s.table, ids), s.updater.due))
    decreases |ids|
  {
    if ids == [] {
      assert Entries(s.table, ids) == map[];
    } else {
      var front, last := ids[..|ids| - 1], ids[|ids| - 1];
      ReadsAll(s, front);
      RunSnoc(s, Reads(front), ReadEntry(last));
      assert Entries(s.table, ids) == Entries(s.table, front)[last := s.table[last]];
    }
  }

  function Without(copies: Table, ids: seq<Term>): Table {
    map id | id in copies && id !in ids :: copies[id]
  }

  function SetOf(ids: seq<Term>): set<Term> {
    set id | id in ids
  }

  lemma OneMore(table: Table, copies: Table, now: int, front: seq<Term>, last: Term)
    requires last in table && last !in front && last in copies
    ensures PassOver(table, now, SetOf(front + [last]))
         == PassOver(table, now, SetOf(front))[last := Recalculated(table[last], now)]
    ensures PassOver(table, now, SetOf(front))[last] == table[last]
    ensures Without(copies, front + [last]) == Without(copies, front) - {last}
    ensures last in Without(copies, front) && Without(copies, front)[last] == copies[last]
  {
    assert forall id :: id in SetOf(front + [last]) <==> id in SetOf(front) || id == last;
  }

  /** Writing only a changed entry is writing the recalculated one. */
  lemma WriteOne(s: Sys, id: Term)
    requires s.updater.Writing? && id in s.updater.copies && s.updater.copies[id].timestamp.At?
    requires id in s.table && s.updater.copies[id] == s.table[id]
    ensures Enabled(s, WriteEntry(id))
    ensures Apply(s, WriteEntry(id)) == s.(table := s.table[id := Recalculated(s.table[id], s.updater.now)],
                                           updater := Writing(s.updater.now, s.updater.copies - {id}))
  {
    if Recalculated(s.table[id], s.updater.now) == s.table[id] {
      assert s.table[id := s.table[id]] == s.table;
    }
  }

  /** The pass with the entries `ids` written back. */
  function Wrote(s: Sys, ids: seq<Term>): Sys
    requires s.updater.Writing?
  {
    s.(table := PassOver(s.table, s.updater.now, SetOf(ids)),
       updater := Writing(s.updater.now, Without(s.updater.copies, ids)))
  }

  lemma WroteOneMore(s: Sys, front: seq<Term>, last: Term)
    requires s.updater.Writing? && last !in front && last in s.updater.copies && s.updater.copies[last].timestamp.At?
    requires last in s.table && s.updater.copies[last] == s.table[last]
    ensures Enabled(Wrote(s, front), WriteEntry(last))
    ensures Apply(Wrote(s, front), WriteEntry(last)) == Wrote(s, front + [last])
  {
    OneMore(s.table, s.updater.copies, s.updater.now, front, last);
    WriteOne(Wrote(s, front), last);
  }

  /** Writing the entries `ids` back, in any order, maps exactly those. */
  lemma {:induction false} WritesAll(s: Sys, ids: seq<Term>)
    requires s.updater.Writing? && Distinct(ids)
    requires forall id :: id in s.updater.copies ==> id in s.table && s.updater.copies[id] == s.table[id]
    requires forall id :: id in ids ==> id in s.updater.copies && s.updater.copies[id].timestamp.At?
    ensures Run(s, Writes(ids)) && Final(s, Writes(ids)) == Wrote(s, ids)
    decreases |ids|
  {
    if ids == [] {
      assert PassOver(s.table, s.updater.now, SetOf(ids)) == s.table;
      assert Without(s.updater.copies, ids) == s.updater.copies;
    } else {
      var front, last := ids[..|ids| - 1], ids[|ids| - 1];
      assert ids == front + [last] && last in ids;
      WritesAll(s, front);
      WroteOneMore(s, front, last);
      RunSnoc(s, Writes(front), WriteEntry(last));
    }
  }

  /** A pass begun: every entry listed, in some order. */
  lemma ListsAll(s: Sys, listed: seq<Term>)
    requires s.updater.Idle? && Distinct(listed) && (forall id :: id in listed <==> id in s.table)
    ensures var steps := [BeginPass] + Reads(listed) + [EndListing];
            && Run(s, steps)
            && Final(s, steps).updater == Writing(s.clock, s.table)
            && Final(s, steps).table == s.table && Final(s, steps).procs == s.procs && Final(s, steps).clock == s.clock
  {
    RunSnoc(s, [], BeginPass);
    assert [] + [BeginPass] == [BeginPass];
    var a := Apply(s, BeginPass);
    ReadsAll(a, listed);
    RunThen(s, [BeginPass], Reads(listed));
    RunSnoc(s, [BeginPass] + Reads(listed), EndListing);
    assert Entries(s.table, listed) == s.table;
  }

  /** The entries a pass gets through, and how it ends: dead at an entry without a time, or done. */
  lemma PassAlone(s: Sys, listed: seq<Term>, written: seq<Term>, bad: Option<Term>)
    requires s.updater.Idle? && Distinct(listed) && (forall id :: id in listed <==> id in s.table)
    requires Distinct(written) && forall id :: id in written ==> id in s.table && s.table[id].timestamp.At?
    requires match bad
             case Some(id) => id in s.table && s.table[id].timestamp.Min?
             case None => forall id :: id in s.table ==> id in written
    ensures var end := if bad.Some? then WriteEntry(bad.value) else EndPass;
            var steps := [BeginPass] + Reads(listed) + [EndListing] + Writes(written) + [end];
            && Run(s, steps)
            && Final(s, steps).table == PassOver(s.table, s.clock, SetOf(written))
            && Final(s, steps).updater.Idle? && Final(s, steps).procs == s.procs
  {
    var listing := [BeginPass] + Reads(listed) + [EndListing];
    ListsAll(s, listed);
    WritesAll(Final(s, listing), written);
    RunThen(s, listing, Writes(written));
    var t := Final(s, listing + Writes(written));
    var end := if bad.Some? then WriteEntry(bad.value) else EndPass;
    assert Enabled(t, end);
    RunSnoc(s, listing + Writes(written), end);
  }
}
