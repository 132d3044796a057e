/** The code of the two services seen as steps of the replication machine: a handler that nothing
    interrupts, a whole bulk write, and any run as the log of its database operations. */
module Correspondence {
  import opened Basics
  import opened Books
  import opened Replica
  import opened BookSync
  import opened Replication

  /** The operation a step executes on the collection, if it does. */
  ghost function OpsOfStep(w: World, step: Step): seq<Op>
    requires Enabled(w, step)
  {
    match step
    case Deliver => [EventOp(w.queue[0])]
    case WriteOne(id) => [SyncOp(w.sync, id)]
    case _ => []
  }

  /** The operations a run executes on the collection, in order. */
  ghost function OpsIn(w: World, steps: seq<Step>): seq<Op>
    requires Run(w, steps)
    decreases |steps|
  {
    if steps == [] then [] else OpsOfStep(w, steps[0]) + OpsIn(Apply(w, steps[0]), steps[1..])
  }

  lemma RowsOfStep(w: World, step: Step)
    requires Enabled(w, step)
    ensures step.Deliver? ==> Apply(w, step).rows == ApplyOp(w.rows, EventOp(w.queue[0]))
    ensures step.WriteOne? ==> Apply(w, step).rows == ApplyOp(w.rows, SyncOp(w.sync, step.id))
    ensures !step.Deliver? && !step.WriteOne? ==> Apply(w, step).rows == w.rows
  {
    assert Apply(w, step).rows == Change(w, step).rows;
  }

  lemma StepIsReplay(w: World, step: Step, rest: seq<Op>)
    requires Enabled(w, step)
    ensures Replay(w.rows, OpsOfStep(w, step) + rest) == Replay(Apply(w, step).rows, rest)
  {
    RowsOfStep(w, step);
    match step
    case Deliver => OneThenRest(w.rows, EventOp(w.queue[0]), rest);
    case WriteOne(id) => OneThenRest(w.rows, SyncOp(w.sync, id), rest);
    case _ => assert OpsOfStep(w, step) + rest == rest;
  }

  /** The rows after any run are the replay of its operations. */
  lemma {:induction false} RunReplays(w: World, steps: seq<Step>)
    requires Run(w, steps)
    ensures Final(w, steps).rows == Replay(w.rows, OpsIn(w, steps))
    decreases |steps|
  {
    if steps != [] {
      var next := Apply(w, steps[0]);
      RunReplays(next, steps[1..]);
      StepIsReplay(w, steps[0], OpsIn(next, steps[1..]));
    }
  }

  /** So each book's row depends on that book's own inserts, deletes and upserts alone. */
  lemma RunIsReplay(w: World, steps: seq<Step>, id: int)
    requires Run(w, steps)
    ensures Final(w, steps).rows == Replay(w.rows, OpsIn(w, steps))
    ensures Row(Final(w, steps).rows, id) == RowAfter(Row(w.rows, id), OpsOf(OpsIn(w, steps), id))
  {
    RunReplays(w, steps);
    Projection(w.rows, OpsIn(w, steps), id);
  }

  lemma RunOne(w: World, step: Step)
    requires Enabled(w, step)
    ensures Run(w, [step]) && Final(w, [step]) == Apply(w, step)
  {
  }

  /** `create_book` with no other step in between leaves what `BookService.CreateBook` promises. */
  lemma CreateBookSteps(w: World, id: int, title: string, author: string)
    requires Sound(w) && id !in w.source
    ensures var steps := [CommitCreate(id, title, author)] + [Refresh(id)] + [PublishCreated(id)];
            && Run(w, steps)
            && Final(w, steps).source == CommitNew(w.source, id, title, author)
            && Final(w, steps).creating == w.creating
            && Final(w, steps).queue
                 == w.queue + if w.boundCreated then [Created(BookDto(id, title, author, false))] else []
  {
    var a := Apply(w, CommitCreate(id, title, author));
    RunOne(w, CommitCreate(id, title, author));
    var b := Apply(a, Refresh(id));
    RunSplit(w, [CommitCreate(id, title, author)], Refresh(id));
    RunSplit(w, [CommitCreate(id, title, author)] + [Refresh(id)], PublishCreated(id));
    var c := Apply(b, PublishCreated(id));
    assert b.creating[id] == Refreshed(BookDto(id, title, author, false));
    assert c.creating == w.creating;
    assert w.queue + [] == w.queue;
  }

  /** `delete_book` with no other step in between leaves what `BookService.DeleteBook` promises. */
  lemma DeleteBookSteps(w: World, id: int)
    requires id in w.source
    ensures var dto := DtoOf(id, MarkDeleted(w.source, id)[id]);
            var steps := [CommitDelete(id)] + [PublishDeleted(dto)];
            && Run(w, steps)
            && Final(w, steps).source == MarkDeleted(w.source, id)
            && Final(w, steps).deleting == w.deleting
            && Final(w, steps).queue == w.queue + if w.boundDeleted then [Event.Deleted(dto)] else []
  {
    var dto := DtoOf(id, MarkDeleted(w.source, id)[id]);
    RunOne(w, CommitDelete(id));
    var a := Apply(w, CommitDelete(id));
    assert a.deleting == w.deleting + multiset{dto};
    RunSplit(w, [CommitDelete(id)], PublishDeleted(dto));
    var b := Apply(a, PublishDeleted(dto));
    assert b.deleting == w.deleting;
    assert w.queue + [] == w.queue;
  }

  // ---- A whole sync -------------------------------------------------------------------------------

  function WriteSteps(items: seq<BookDto>): seq<Step> {
    if items == [] then [] else [WriteOne(items[0].id)] + WriteSteps(items[1..])
  }

  lemma SnapshotIds(items: seq<BookDto>, table: Table)
    requires Lists(items, table, table.Keys)
    ensures DistinctIds(items) && Ids(items) == table.Keys && Live(items) == LiveIds(table)
  {
    forall id | id in table ensures id in Ids(items) {
      var i :| 0 <= i < |items| && items[i].id == id;
    }
    forall id | id in LiveIds(table) ensures id in Live(items) {
      var i :| 0 <= i < |items| && items[i].id == id;
    }
  }

  /** Writing entries of a snapshot, in the order listed, replays their generated operations. */
  lemma {:induction false} WritesReplay(w: World, items: seq<BookDto>)
    requires w.sync.Applying? && DistinctIds(items) && Ids(items) <= w.sync.todo
    requires forall i :: 0 <= i < |items| ==>
      items[i].id in w.sync.snapshot && items[i] == DtoOf(items[i].id, w.sync.snapshot[items[i].id])
    ensures Run(w, WriteSteps(items))
    ensures Final(w, WriteSteps(items)).rows == Replay(w.rows, OpsFor(items, w.sync.millis))
    ensures Final(w, WriteSteps(items)).sync == w.sync.(todo := w.sync.todo - Ids(items))
    decreases |items|
  {
    if items == [] {
      assert w.sync.todo - Ids(items) == w.sync.todo;
    } else {
      SplitFirst(items);
      var step, rest := WriteOne(items[0].id), items[1..];
      assert items[0].id in w.sync.todo;
      var next := Apply(w, step);
      assert w.sync.todo - {items[0].id} - Ids(rest) == w.sync.todo - Ids(items);
      assert SyncOp(w.sync, items[0].id) == OpFor(items[0], w.sync.millis);
      assert forall i :: 0 <= i < |rest| ==> rest[i] == items[i + 1];
      WritesReplay(next, rest);
      assert ([step] + WriteSteps(rest))[1..] == WriteSteps(rest);
      OneThenRest(w.rows, OpFor(items[0], w.sync.millis), OpsFor(rest, w.sync.millis));
    }
  }

  /** A sync that nothing interrupts, its bulk write in any order: the machine arrives where
      `SaveBooksSnapshot` does, and the rows are exactly the live books. */
  lemma UninterruptedSync(w: World, items: seq<BookDto>, millis: int)
    requires Sound(w) && w.sync.Waiting? && Lists(items, w.source, w.source.Keys)
    ensures var read := Apply(w, ReadSnapshot(millis));
            && Run(read, WriteSteps(items))
            && Final(read, WriteSteps(items)).rows == Synced(w.rows, Live(items), Dead(items), millis)
            && Final(read, WriteSteps(items)).rows.Keys == LiveIds(w.source)
            && Enabled(Final(read, WriteSteps(items)), SyncEnds)
  {
    var read := Apply(w, ReadSnapshot(millis));
    SnapshotIds(items, w.source);
    WritesReplay(read, items);
    BulkWriteOrderIndependent(w.rows, items, millis, OpsFor(items, millis));
    forall id | id in w.rows.Keys ensures id in w.source.Keys {
      assert id in w.rows;
    }
    SyncedOnce(w.rows, items, millis, millis);
  }

  /** A bulk write that fails after any part of the snapshot, in any order: the part stays written, and
      the worker waits for its next attempt. */
  lemma InterruptedSync(w: World, part: seq<BookDto>, millis: int)
    requires w.sync.Waiting? && Lists(part, w.source, Ids(part))
    ensures var read := Apply(w, ReadSnapshot(millis));
            var steps := WriteSteps(part) + [SyncFails];
            && Run(read, steps)
            && Final(read, steps).rows == Replay(w.rows, OpsFor(part, millis))
            && PartlyWritten(w.rows, Final(read, steps).rows, part, millis)
            && Final(read, steps).sync == Waiting
  {
    var read := Apply(w, ReadSnapshot(millis));
    forall id | id in Ids(part) ensures id in w.source {
      var i :| 0 <= i < |part| && part[i].id == id;
    }
    WritesReplay(read, part);
    RunSplit(read, WriteSteps(part), SyncFails);
    PartialWrite(w.rows, part, millis, OpsFor(part, millis));
  }
}
