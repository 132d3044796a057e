/** Which rows the replica keeps for books deleted at the source, once everything has settled. */
module Staleness {
  import opened Basics
  import opened Books
  import opened Replica
  import opened Replication

  /** The last message of the queue about a book. */
  function LastAbout(queue: seq<Event>, id: int): Option<Event>
    decreases |queue|
  {
    if queue == [] then None
    else
      var last := queue[|queue| - 1];
      if last.dto.id == id then Some(last) else LastAbout(queue[..|queue| - 1], id)
  }

  lemma LastAppend(queue: seq<Event>, e: Event, id: int)
    ensures LastAbout(queue + [e], id) == if e.dto.id == id then Some(e) else LastAbout(queue, id)
  {
  }

  lemma {:induction false} LastTail(queue: seq<Event>, id: int)
    requires queue != []
    ensures LastAbout(queue, id) == if LastAbout(queue[1..], id).Some? then LastAbout(queue[1..], id)
                                    else if queue[0].dto.id == id then Some(queue[0]) else None
    decreases |queue|
  {
    if |queue| > 1 {
      var front := queue[..|queue| - 1];
      LastTail(front, id);
      assert queue[1..][..|queue| - 2] == front[1..];
    } else {
      assert LastAbout([], id) == None;
    }
  }

  /** The event a step puts on the queue. */
  function Queues(w: World, step: Step): Option<Event>
    requires Enabled(w, step)
  {
    match step
    case PublishCreated(id) => if w.boundCreated then Some(Created(w.creating[id].dto)) else None
    case PublishDeleted(dto) => if w.boundDeleted then Some(Event.Deleted(dto)) else None
    case _ => None
  }

  predicate IsAbout(e: Option<Event>, id: int) {
    e.Some? && e.value.dto.id == id
  }

  lemma LastAfter(w: World, step: Step, id: int)
    requires Enabled(w, step)
    ensures IsAbout(Queues(w, step), id) ==> LastAbout(Apply(w, step).queue, id) == Queues(w, step)
    ensures !IsAbout(Queues(w, step), id) && LastAbout(Apply(w, step).queue, id).Some? ==>
              LastAbout(Apply(w, step).queue, id) == LastAbout(w.queue, id)
    ensures LastAbout(Apply(w, step).queue, id).None? && LastAbout(w.queue, id).Some? ==>
              step == Deliver && LastAbout(w.queue, id) == Some(w.queue[0]) && w.queue[0].dto.id == id
    ensures step == Deliver && w.queue[0].dto.id == id ==> LastAbout(w.queue, id).Some?
  {
    match step
    case PublishCreated(other) =>
      LastAppend(w.queue, Created(w.creating[other].dto), id);
    case PublishDeleted(dto) =>
      LastAppend(w.queue, Event.Deleted(dto), id);
    case Deliver =>
      LastTail(w.queue, id);
    case _ =>
      assert Apply(w, step).queue == w.queue;
  }

  // ---- What the marks say of one book -----------------------------------------------------------

  /** The last message in the queue about a book is the last one ever queued. */
  ghost predicate QueueMarked(w: World, id: int) {
    match LastAbout(w.queue, id)
    case Some(Created(_)) => id in w.past.tail
    case Some(Deleted(_)) => id !in w.past.tail && id in w.past.arrived
    case None => true
  }

  ghost predicate DeletionsMarked(w: World) {
    forall e :: e in w.queue && e.Deleted? ==> e.dto.id in w.past.arrived
  }

  /** A book's created event is to come, was missed, or was queued. */
  ghost predicate Accounted(w: World, id: int) {
    id in w.source ==> id in w.creating || id in w.past.missed || id in w.past.tail || id in w.past.arrived
  }

  /** Once the queue holds nothing more about the book: a creation queued last has left a row, unless
      the sync deleted it, and a deletion queued last has left no event row. */
  ghost predicate Drained(w: World, id: int) {
    LastAbout(w.queue, id) == None ==>
      && (id in w.past.tail && id !in w.past.swept ==> id in w.rows)
      && (id in w.past.tail && id in w.past.late ==> id in w.rows)
      && (id !in w.past.tail && id in w.past.arrived ==> Row(w.rows, id) != Some(EVENT_STAMP))
  }

  ghost predicate LateMarked(w: World, id: int) {
    id in w.past.late ==>
      && (id in w.past.tail || id in w.past.arrived)
      && (id in w.rows ==> w.rows[id] == EVENT_STAMP)
      && (!w.sync.Waiting? ==> SnapshotDeleted(w.sync, id) && id !in Todo(w.sync))
  }

  ghost predicate LateCreated(w: World, id: int) {
    id in w.past.late ==> id in w.source && id !in w.creating && id !in w.past.missed
  }

  /** Once the current snapshot's operation for the book has run: a live book has a row until a
      deletion event, and after the delete only a late created event can bring a row. */
  ghost predicate Written(w: World, id: int) {
    && (SnapshotLive(w.sync, id) && id !in Todo(w.sync) && id !in w.past.arrived ==> id in w.rows)
    && (SnapshotDeleted(w.sync, id) && id !in Todo(w.sync) && id in w.rows ==>
          w.rows[id] == EVENT_STAMP && id in w.past.late)
  }

  ghost predicate Swept(w: World, id: int) {
    id in w.past.swept ==> IsDeleted(w, id) && (!w.sync.Waiting? ==> SnapshotDeleted(w.sync, id))
  }

  /** The rows with a date are those a sync upserted and no sync deleted since. */
  ghost predicate Dated(w: World, id: int) {
    && (id in w.rows && w.rows[id] != EVENT_STAMP ==> id in w.past.upserted)
    && (id in w.past.upserted && id !in w.past.swept ==> id in w.rows && w.rows[id] != EVENT_STAMP)
  }

  /** An event row of a book of which no event was ever queued was there at the start. */
  ghost predicate Inherited(before: Rows, w: World, id: int) {
    Row(w.rows, id) == Some(EVENT_STAMP) && id !in w.past.tail && id !in w.past.arrived ==>
      Row(before, id) == Some(EVENT_STAMP)
  }

  /** A deletion newer than a snapshot read with both keys bound is queued, or still to be published. */
  ghost predicate NewDeletionsArrive(w: World) {
    !w.sync.Waiting? && w.sync.bound ==>
      forall id :: IsDeleted(w, id) && !SnapshotDeleted(w.sync, id) ==> id in w.past.arrived || Deleting(w, id)
  }

  ghost predicate Marked(before: Rows, w: World, id: int) {
    QueueMarked(w, id) && Accounted(w, id) && Drained(w, id) && LateMarked(w, id) && LateCreated(w, id)
    && Written(w, id) && Swept(w, id) && Dated(w, id) && Inherited(before, w, id)
  }

  ghost predicate Tracked(before: Rows, w: World, id: int) {
    Complete(w) && DeletionsMarked(w) && NewDeletionsArrive(w) && Marked(before, w, id)
  }

  // ---- Preservation -------------------------------------------------------------------------------

  lemma MarksAfter(w: World, step: Step, id: int)
    requires SoundCreating(w) && Enabled(w, step)
    ensures var past := Apply(w, step).past;
            if IsAbout(Queues(w, step), id)
            then if step.PublishCreated? then id in past.tail else id !in past.tail && id in past.arrived
            else (id in past.tail <==> id in w.past.tail) && (id in past.arrived <==> id in w.past.arrived)
    ensures IsAbout(Queues(w, step), id) ==> if step.PublishCreated? then Queues(w, step).value.Created?
                                             else Queues(w, step).value.Deleted?
  {
    assert Apply(w, step).past == Record(w, step);
  }

  lemma QueueMarkedStep(w: World, step: Step, id: int)
    requires SoundCreating(w) && QueueMarked(w, id) && Enabled(w, step)
    ensures QueueMarked(Apply(w, step), id)
  {
    LastAfter(w, step, id);
    MarksAfter(w, step, id);
  }

  lemma DeletionsMarkedStep(w: World, step: Step)
    requires DeletionsMarked(w) && Enabled(w, step)
    ensures DeletionsMarked(Apply(w, step))
  {
  }

  lemma AccountedStep(w: World, step: Step, id: int)
    requires SoundCreating(w) && Accounted(w, id) && Enabled(w, step)
    ensures Accounted(Apply(w, step), id)
  {
    assert Apply(w, step).past == Record(w, step);
  }

  lemma DrainedStep(before: Rows, w: World, step: Step, id: int)
    requires SoundCreating(w) && Marked(before, w, id) && Enabled(w, step)
    ensures Drained(Apply(w, step), id)
  {
    LastAfter(w, step, id);
    assert Apply(w, step).past == Record(w, step);
  }

  lemma LateMarkedStep(before: Rows, w: World, step: Step, id: int)
    requires Marked(before, w, id) && Enabled(w, step)
    ensures LateMarked(Apply(w, step), id)
  {
    LastAfter(w, step, id);
    assert Apply(w, step).past == Record(w, step) && Apply(w, step).sync == Change(w, step).sync;
  }

  lemma LateCreatedStep(w: World, step: Step, id: int)
    requires Sound(w) && CreatedOnce(w) && LateCreated(w, id) && Enabled(w, step)
    ensures LateCreated(Apply(w, step), id)
  {
    assert Apply(w, step).past == Record(w, step);
    assert step == Deliver && w.queue[0].Created? ==> QueuedCreated(w.queue, w.queue[0].dto.id);
  }

  lemma WrittenStep(w: World, step: Step, id: int)
    requires SoundSync(w) && DeletionsMarked(w) && Written(w, id) && Enabled(w, step)
    ensures Written(Apply(w, step), id)
  {
    assert Apply(w, step).past == Record(w, step);
  }

  lemma SweptStep(w: World, step: Step, id: int)
    requires SoundSync(w) && Swept(w, id) && Enabled(w, step)
    ensures Swept(Apply(w, step), id)
  {
    var v := Apply(w, step);
    assert v.past == Record(w, step) && v.sync == Change(w, step).sync;
    SourceEvolves(w, step);
    if !v.sync.Waiting? && !step.ReadSnapshot? {
      StepKeepsSnapshot(w, step);
    }
  }

  lemma DatedStep(w: World, step: Step, id: int)
    requires Dated(w, id) && Enabled(w, step)
    ensures Dated(Apply(w, step), id)
  {
    assert Apply(w, step).past == Record(w, step) && Apply(w, step).rows == Change(w, step).rows;
  }

  lemma InheritedStep(before: Rows, w: World, step: Step, id: int)
    requires SoundCreating(w) && QueueMarked(w, id) && Inherited(before, w, id) && Enabled(w, step)
    ensures Inherited(before, Apply(w, step), id)
  {
    LastAfter(w, step, id);
    assert Apply(w, step).past == Record(w, step);
  }

  lemma DeletingAfter(w: World, step: Step, id: int)
    requires Enabled(w, step) && Deleting(w, id)
    ensures Deleting(Apply(w, step), id) || (step.PublishDeleted? && step.dto.id == id)
  {
  }

  lemma NewlyDeleted(w: World, step: Step, id: int)
    requires Enabled(w, step) && !IsDeleted(w, id) && IsDeleted(Apply(w, step), id)
    ensures step == CommitDelete(id) && Deleting(Apply(w, step), id)
  {
  }

  lemma NewDeletionsStep(w: World, step: Step)
    requires SoundSync(w) && NewDeletionsArrive(w) && Enabled(w, step)
    ensures NewDeletionsArrive(Apply(w, step))
  {
    var v := Apply(w, step);
    if !v.sync.Waiting? && v.sync.bound && !step.ReadSnapshot? {
      StepKeepsSnapshot(w, step);
      forall id | IsDeleted(v, id) && !SnapshotDeleted(v.sync, id) ensures id in v.past.arrived || Deleting(v, id) {
        if !IsDeleted(w, id) {
          NewlyDeleted(w, step, id);
        } else if Deleting(w, id) {
          DeletingAfter(w, step, id);
        }
      }
    }
  }

  lemma TrackedStep(before: Rows, w: World, step: Step, id: int)
    requires Tracked(before, w, id) && Enabled(w, step)
    ensures Tracked(before, Apply(w, step), id)
  {
    CompleteStep(w, step);
    DeletionsMarkedStep(w, step);
    NewDeletionsStep(w, step);
    QueueMarkedStep(w, step, id);
    AccountedStep(w, step, id);
    DrainedStep(before, w, step, id);
    LateMarkedStep(before, w, step, id);
    LateCreatedStep(w, step, id);
    WrittenStep(w, step, id);
    SweptStep(w, step, id);
    DatedStep(w, step, id);
    InheritedStep(before, w, step, id);
  }

  lemma {:induction false} TrackedAlways(before: Rows, w: World, steps: seq<Step>, id: int)
    requires Tracked(before, w, id) && Run(w, steps)
    ensures Tracked(before, Final(w, steps), id)
    decreases |steps|
  {
    if steps != [] {
      TrackedStep(before, w, steps[0], id);
      TrackedAlways(before, Apply(w, steps[0]), steps[1..], id);
    }
  }

  // ---- When the sync writes a row -----------------------------------------------------------------

  /** By the order of events the book has an event row, as far as the sync leaves it: its creation was
      delivered, or it had one at the start, and no deletion was delivered after that. */
  ghost predicate Shows(w: World, steps: seq<Step>, id: int)
    requires Run(w, steps)
  {
    || HappensLast(w, steps, CreatedDelivered(id), DeletedDelivered(id))
    || (Row(w.rows, id) == Some(EVENT_STAMP) && !Happens(w, steps, DeletedDelivered(id)))
  }

  lemma RowStep(w: World, step: Step, id: int)
    requires Enabled(w, step)
    ensures CreatedDelivered(id)(w, step) ==> id in Apply(w, step).rows
    ensures id in w.rows && !DeletedDelivered(id)(w, step) ==>
              id in Apply(w, step).rows || id in Apply(w, step).past.swept
    ensures w.past.swept <= Apply(w, step).past.swept
    ensures Row(Apply(w, step).rows, id) == Some(EVENT_STAMP) ==>
              CreatedDelivered(id)(w, step)
              || (Row(w.rows, id) == Some(EVENT_STAMP) && !DeletedDelivered(id)(w, step))
  {
    var v := Apply(w, step);
    assert v.past == Record(w, step) && v.rows == Change(w, step).rows;
  }

  lemma {:induction false} RowsByOrder(w: World, steps: seq<Step>, id: int)
    requires Run(w, steps)
    ensures Shows(w, steps, id) && id !in Final(w, steps).past.swept ==> id in Final(w, steps).rows
    ensures Row(Final(w, steps).rows, id) == Some(EVENT_STAMP) ==> Shows(w, steps, id)
    decreases |steps|
  {
    if steps != [] {
      var front, last := steps[..|steps| - 1], steps[|steps| - 1];
      assert steps == front + [last];
      RunSplit(w, front, last);
      RowsByOrder(w, front, id);
      HappensSnoc(w, front, last, DeletedDelivered(id));
      HappensLastSnoc(w, front, last, CreatedDelivered(id), DeletedDelivered(id));
      RowStep(Final(w, front), last, id);
    }
  }

  /** Step `i` writes the book's entry of a snapshot that has it live, before its creation was
      delivered, or after its event row had been deleted again. */
  ghost predicate WritesUnseen(w: World, steps: seq<Step>, i: int, id: int) {
    && 0 <= i < |steps| && Run(w, steps[..i]) && steps[i] == WriteOne(id)
    && SnapshotLive(Final(w, steps[..i]).sync, id) && !Shows(w, steps[..i], id)
  }

  lemma UpsertedStep(w: World, steps: seq<Step>, last: Step, id: int)
    requires Init(w) && Run(w, steps) && Enabled(Final(w, steps), last)
    ensures var u := Final(w, steps);
            id in Apply(u, last).past.upserted <==>
              id in u.past.upserted || (last == WriteOne(id) && SnapshotLive(u.sync, id) && !Shows(w, steps, id))
  {
    InitTracked(w, id);
    TrackedAlways(w.rows, w, steps, id);
    RowsByOrder(w, steps, id);
    PastMeansStep(Final(w, steps), last, id);
  }

  /** The sync wrote a book's row exactly when it did so at the start already, or some write of its
      entry ran before its created event or after the deletion of its event row. */
  lemma {:induction false} UpsertedExactly(w: World, steps: seq<Step>, id: int)
    requires Init(w) && Run(w, steps)
    ensures id in Final(w, steps).past.upserted <==>
              (id in w.rows && w.rows[id] != EVENT_STAMP) || exists i :: WritesUnseen(w, steps, i, id)
    decreases |steps|
  {
    if steps != [] {
      var front, last := steps[..|steps| - 1], steps[|steps| - 1];
      assert steps == front + [last];
      RunSplit(w, front, last);
      UpsertedExactly(w, front, id);
      UpsertedStep(w, front, last, id);
      forall i | 0 <= i < |front| ensures WritesUnseen(w, front, i, id) <==> WritesUnseen(w, steps, i, id) {
        assert steps[..i] == front[..i];
      }
      assert steps[..|front|] == front;
      assert WritesUnseen(w, steps, |front|, id) <==>
               last == WriteOne(id) && SnapshotLive(Final(w, front).sync, id) && !Shows(w, front, id);
    }
  }

  lemma InitTracked(w: World, id: int)
    requires Init(w)
    ensures Tracked(w.rows, w, id)
  {
    assert Row(w.rows, id) == Some(EVENT_STAMP) <==> id in w.rows && w.rows[id] == EVENT_STAMP;
  }

  // ---- Main results: every run --------------------------------------------------------------------

  /** A run from any start to an end at which everything has settled. */
  ghost predicate Ended(w: World, steps: seq<Step>) {
    Init(w) && Run(w, steps) && Quiescent(Final(w, steps))
  }

  lemma EndedTracked(w: World, steps: seq<Step>, id: int)
    requires Ended(w, steps)
    ensures Tracked(w.rows, Final(w, steps), id) && LastAbout(Final(w, steps).queue, id) == None
    ensures !Deleting(Final(w, steps), id)
  {
    InitTracked(w, id);
    TrackedAlways(w.rows, w, steps, id);
  }

  /** The sync wrote the book's row, and the book was deleted after the snapshot was read. */
  predicate StaleBySync(v: World, id: int) {
    SnapshotLive(v.sync, id) && id in v.past.upserted
  }

  /** The last event queued about the book is its creation, and it came in after the sync's delete, if
      the sync deleted the book at all. */
  predicate StaleByEvent(v: World, id: int) {
    id in v.past.tail && (SnapshotDeleted(v.sync, id) ==> id in v.past.late)
  }

  /** The snapshot still had the book live, and no deletion of it ever reached the queue. */
  predicate StaleUntold(v: World, id: int) {
    SnapshotLive(v.sync, id) && id !in v.past.arrived
  }

  predicate IsStale(v: World, id: int) {
    StaleBySync(v, id) || StaleByEvent(v, id) || StaleUntold(v, id)
  }

  /** Exactly which deleted books keep a row, whatever the order of publications and bindings. */
  lemma StaleExactly(w: World, steps: seq<Step>, id: int)
    requires Ended(w, steps) && IsDeleted(Final(w, steps), id)
    ensures id in Final(w, steps).rows <==> IsStale(Final(w, steps), id)
  {
    EndedTracked(w, steps, id);
  }

  /** And what those rows are. A dated one was written by the sync for a book deleted after the
      snapshot; an event row whose creation is not the last event queued is left from before the
      start, and then the deletion was published before the second binding. */
  lemma StaleRowsAre(w: World, steps: seq<Step>, id: int)
    requires Ended(w, steps) && IsDeleted(Final(w, steps), id) && id in Final(w, steps).rows
    ensures Final(w, steps).rows[id] != EVENT_STAMP <==> StaleBySync(Final(w, steps), id)
    ensures !StaleBySync(Final(w, steps), id) && !StaleByEvent(Final(w, steps), id) ==>
              && Row(w.rows, id) == Some(EVENT_STAMP)
              && id !in Final(w, steps).past.arrived && !Final(w, steps).sync.bound
  {
    EndedTracked(w, steps, id);
  }

  /** With both keys bound before the finished snapshot was read, the first two cases remain. */
  lemma StaleOnceBound(w: World, steps: seq<Step>, id: int)
    requires Ended(w, steps) && Final(w, steps).sync.bound && IsDeleted(Final(w, steps), id)
    ensures id in Final(w, steps).rows <==> StaleBySync(Final(w, steps), id) || StaleByEvent(Final(w, steps), id)
  {
    EndedTracked(w, steps, id);
    StaleExactly(w, steps, id);
  }

  /** The replica has converged to the live books exactly when no live book was missed and no deleted
      one is stale. */
  lemma ConvergesExactly(w: World, steps: seq<Step>)
    requires Ended(w, steps)
    ensures var v := Final(w, steps);
            v.rows.Keys == LiveIds(v.source) <==>
              && (forall id :: id in LiveIds(v.source) ==> id in v.sync.snapshot || id !in v.past.missed)
              && (forall id :: IsDeleted(v, id) ==> !IsStale(v, id))
  {
    var v := Final(w, steps);
    SoundAlways(w, steps);
    forall id | IsDeleted(v, id) ensures id in v.rows <==> IsStale(v, id) {
      StaleExactly(w, steps, id);
    }
    forall id | id in LiveIds(v.source) ensures id !in v.rows <==> id !in v.sync.snapshot && id in v.past.missed {
      MissingExactly(w, steps, id);
    }
    assert forall id :: id in v.rows.Keys ==> id in LiveIds(v.source) || IsDeleted(v, id);
    if v.rows.Keys == LiveIds(v.source) {
      assert forall id :: id in v.rows <==> id in LiveIds(v.source);
    } else if (forall id :: id in LiveIds(v.source) ==> id in v.rows)
           && (forall id :: IsDeleted(v, id) ==> id !in v.rows) {
      forall id ensures id in v.rows.Keys <==> id in LiveIds(v.source) {
      }
    }
  }

  // ---- Main results: publications in order ----------------------------------------------------------

  /** A deletion is published only after the creation, so until then its request is pending. */
  ghost predicate CreatedFirst(w: World) {
    forall id :: id in w.creating && IsDeleted(w, id) ==> Deleting(w, id)
  }

  ghost predicate ArrivedLast(w: World) {
    forall id :: id in w.past.arrived ==> id in w.source && id !in w.creating && id !in w.past.tail
  }

  /** A deletion that never reaches the queue belongs to a book whose created event was missed, or
      fell between the two bindings. */
  ghost predicate LostOnlyInWindow(w: World) {
    && (!w.boundDeleted ==> forall id :: id in w.source ==>
          id in w.creating || id in w.past.missed || id in w.past.window)
    && (forall id :: IsDeleted(w, id) && id !in w.creating && id !in w.past.missed && id !in w.past.window ==>
          id in w.past.arrived || Deleting(w, id))
  }

  ghost predicate Ordered(w: World) {
    Sound(w) && CreatedFirst(w) && ArrivedLast(w) && LostOnlyInWindow(w)
  }

  lemma CreatedFirstStep(w: World, step: Step)
    requires SoundCreating(w) && CreatedFirst(w) && Enabled(w, step) && InOrder(w, step)
    ensures CreatedFirst(Apply(w, step))
  {
    var v := Apply(w, step);
    forall id | id in v.creating && IsDeleted(v, id) ensures Deleting(v, id) {
      if IsDeleted(w, id) {
        DeletingAfter(w, step, id);
      } else {
        NewlyDeleted(w, step, id);
      }
    }
  }

  lemma ArrivedLastStep(w: World, step: Step)
    requires Sound(w) && ArrivedLast(w) && Enabled(w, step) && InOrder(w, step)
    ensures ArrivedLast(Apply(w, step))
  {
    assert Apply(w, step).past == Record(w, step);
  }

  lemma LostOnlyInWindowStep(w: World, step: Step)
    requires Sound(w) && CreatedFirst(w) && LostOnlyInWindow(w) && Enabled(w, step) && InOrder(w, step)
    ensures LostOnlyInWindow(Apply(w, step))
  {
    var v := Apply(w, step);
    forall id | IsDeleted(v, id) && id !in v.creating && id !in v.past.missed && id !in v.past.window
      ensures id in v.past.arrived || Deleting(v, id)
    {
      if !IsDeleted(w, id) {
        NewlyDeleted(w, step, id);
      } else if Deleting(w, id) {
        DeletingAfter(w, step, id);
      }
    }
  }

  lemma {:induction false} OrderedAlways(w: World, steps: seq<Step>)
    requires Ordered(w) && OrderedRun(w, steps)
    ensures Run(w, steps) && Ordered(Final(w, steps))
    decreases |steps|
  {
    if steps != [] {
      SoundStep(w, steps[0]);
      CreatedFirstStep(w, steps[0]);
      ArrivedLastStep(w, steps[0]);
      LostOnlyInWindowStep(w, steps[0]);
      OrderedAlways(Apply(w, steps[0]), steps[1..]);
    }
  }

  /** A settled end of an ordered run whose finished snapshot was read with both keys bound; no creation
      still to be published at the start had its deletion published already. */
  ghost predicate Settled(w: World, steps: seq<Step>) {
    Ended(w, steps) && CreatedFirst(w) && OrderedRun(w, steps) && Final(w, steps).sync.bound
  }

  /** The created event came in after the sync's delete, and every deleted event was published
      before its key was bound. */
  predicate StaleByLateEvent(v: World, id: int) {
    SnapshotDeleted(v.sync, id) && id in v.past.late && id !in v.past.arrived
  }

  /** In order, a deletion that reaches the queue settles its book for the event rows. */
  lemma StaleInOrder(w: World, steps: seq<Step>, id: int)
    requires Settled(w, steps) && IsDeleted(Final(w, steps), id)
    ensures id in Final(w, steps).rows <==> StaleBySync(Final(w, steps), id) || StaleByLateEvent(Final(w, steps), id)
  {
    EndedTracked(w, steps, id);
    OrderedAlways(w, steps);
    StaleExactly(w, steps, id);
  }

  /** An event row is kept only for a book whose created event was queued, and every deletion published,
      between the two bindings, and then the deletion was committed before the snapshot was read. */
  lemma EventRowsInOrder(w: World, steps: seq<Step>, id: int)
    requires Settled(w, steps) && IsDeleted(Final(w, steps), id)
    requires Row(Final(w, steps).rows, id) == Some(EVENT_STAMP)
    ensures id in Final(w, steps).past.window && id !in Final(w, steps).past.arrived
    ensures SnapshotDeleted(Final(w, steps).sync, id)
  {
    EndedTracked(w, steps, id);
    OrderedAlways(w, steps);
  }

  /** No created event between the two bindings: then no event row is ever stale, and a stale row
      means the deletion was committed after the finished snapshot was read. */
  lemma NoEventRowStale(w: World, steps: seq<Step>, id: int)
    requires Settled(w, steps) && Final(w, steps).past.window == {}
    requires IsDeleted(Final(w, steps), id) && id in Final(w, steps).rows
    ensures Final(w, steps).rows[id] != EVENT_STAMP && SnapshotLive(Final(w, steps).sync, id)
  {
    if Final(w, steps).rows[id] == EVENT_STAMP {
      EventRowsInOrder(w, steps, id);
    }
    StaleRowsAre(w, steps, id);
  }

  // ---- Each case happens ----------------------------------------------------------------------------

  const EMPTY := World(map[], map[], multiset{}, false, false, [], map[], Waiting,
                       Past({}, {}, {}, {}, {}, {}, {}))
  const LIVE := BookDto(1, "t", "a", false)
  const GONE := BookDto(1, "t", "a", true)
  const LIVE_SOURCE: Table := map[1 := BookRow("t", "a", false)]
  const GONE_SOURCE: Table := map[1 := BookRow("t", "a", true)]

  ghost predicate Reaches(steps: seq<Step>, v: World) {
    OrderedRun(EMPTY, steps) && Run(EMPTY, steps) && Final(EMPTY, steps) == v
  }

  lemma Then(steps: seq<Step>, v: World, step: Step, next: World)
    requires Reaches(steps, v) && Enabled(v, step) && InOrder(v, step) && next == Apply(v, step)
    ensures Reaches(steps + [step], next)
  {
    RunSplit(EMPTY, steps, step);
    OrderedSplit(EMPTY, steps, step);
  }

  lemma {:induction false} OrderedSplit(w: World, steps: seq<Step>, step: Step)
    requires OrderedRun(w, steps) && Run(w, steps) && Enabled(Final(w, steps), step) && InOrder(Final(w, steps), step)
    ensures OrderedRun(w, steps + [step])
    decreases |steps|
  {
    if steps == [] {
      assert [] + [step] == [step] && [step][1..] == [];
      assert OrderedRun(Apply(w, step), []);
    } else {
      assert (steps + [step])[1..] == steps[1..] + [step];
      OrderedSplit(Apply(w, steps[0]), steps[1..], step);
    }
  }

  /** Both keys bound, then book 1 created and published. */
  const PUBLISHED := EMPTY.(source := LIVE_SOURCE, boundCreated := true, boundDeleted := true,
                            queue := [Created(LIVE)],
                            past := Past({}, {}, {}, {1}, {}, {}, {}))

  lemma PublishedOnceBound() returns (steps: seq<Step>)
    ensures Reaches(steps, PUBLISHED)
  {
    var a := EMPTY.(boundCreated := true);
    var b := a.(boundDeleted := true);
    var c := b.(source := LIVE_SOURCE, creating := map[1 := Committed]);
    var d := c.(creating := map[1 := Refreshed(LIVE)]);
    Then([], EMPTY, BindCreated, a);
    steps := [] + [BindCreated];
    Then(steps, a, BindDeleted, b);
    steps := steps + [BindDeleted];
    Then(steps, b, CommitCreate(1, "t", "a"), c);
    steps := steps + [CommitCreate(1, "t", "a")];
    Then(steps, c, Refresh(1), d);
    steps := steps + [Refresh(1)];
    Then(steps, d, PublishCreated(1), PUBLISHED);
    steps := steps + [PublishCreated(1)];
  }

  /** The sync's upsert overtakes the created event, then the book is deleted. */
  const OVERTAKEN := PUBLISHED.(source := GONE_SOURCE, sync := Applying(LIVE_SOURCE, 0, {}, true),
                                rows := map[1 := Date(0)], queue := [Created(LIVE), Event.Deleted(GONE)],
                                past := Past({}, {}, {1}, {}, {1}, {}, {}))

  lemma UpsertOvertakes() returns (steps: seq<Step>)
    ensures Reaches(steps, OVERTAKEN)
  {
    var f := PUBLISHED.(sync := Applying(LIVE_SOURCE, 0, {1}, true));
    var g := f.(sync := Applying(LIVE_SOURCE, 0, {}, true), rows := map[1 := Date(0)],
               past := Past({}, {}, {}, {1}, {1}, {}, {}));
    var h := g.(source := GONE_SOURCE, deleting := multiset{GONE});
    assert LIVE_SOURCE.Keys == {1};
    steps := PublishedOnceBound();
    Then(steps, PUBLISHED, ReadSnapshot(0), f);
    steps := steps + [ReadSnapshot(0)];
    assert f.sync.todo - {1} == {} && f.past.upserted + {1} == {1};
    Then(steps, f, WriteOne(1), g);
    steps := steps + [WriteOne(1)];
    Then(steps, g, CommitDelete(1), h);
    steps := steps + [CommitDelete(1)];
    Then(steps, h, PublishDeleted(GONE), OVERTAKEN);
    steps := steps + [PublishDeleted(GONE)];
  }

  /** A settled run that keeps a sync-written row for a deleted book: the created event's insert finds
      the row, and the deletion's filter does not match it. */
  lemma SyncRowCanBeStale() returns (steps: seq<Step>)
    ensures Settled(EMPTY, steps)
    ensures IsDeleted(Final(EMPTY, steps), 1) && StaleBySync(Final(EMPTY, steps), 1) && 1 in Final(EMPTY, steps).rows
  {
    var j := OVERTAKEN.(queue := [Event.Deleted(GONE)]);
    var k := j.(queue := []);
    var l := k.(sync := Done(LIVE_SOURCE, true));
    steps := UpsertOvertakes();
    Then(steps, OVERTAKEN, Deliver, j);
    steps := steps + [Deliver];
    Then(steps, j, Deliver, k);
    steps := steps + [Deliver];
    Then(steps, k, SyncEnds, l);
    steps := steps + [SyncEnds];
  }

  lemma ThenAny(w: World, steps: seq<Step>, v: World, step: Step, next: World)
    requires Run(w, steps) && Final(w, steps) == v && Enabled(v, step) && next == Apply(v, step)
    ensures Run(w, steps + [step]) && Final(w, steps + [step]) == next
  {
    RunSplit(w, steps, step);
  }

  /** Both keys bound; book 1 deleted and that published while its creation waits to be published. */
  const OVERTAKEN_CREATION := EMPTY.(source := GONE_SOURCE, boundCreated := true, boundDeleted := true,
                                     creating := map[1 := Refreshed(LIVE)], queue := [Event.Deleted(GONE)],
                                     past := Past({}, {}, {1}, {}, {}, {}, {}))

  lemma DeletionOvertakes() returns (steps: seq<Step>)
    ensures Run(EMPTY, steps) && Final(EMPTY, steps) == OVERTAKEN_CREATION
  {
    var a := EMPTY.(boundCreated := true);
    var b := a.(boundDeleted := true);
    var c := b.(source := LIVE_SOURCE, creating := map[1 := Committed]);
    var d := c.(creating := map[1 := Refreshed(LIVE)]);
    var e := d.(source := GONE_SOURCE, deleting := multiset{GONE});
    ThenAny(EMPTY, [], EMPTY, BindCreated, a);
    steps := [] + [BindCreated];
    ThenAny(EMPTY, steps, a, BindDeleted, b);
    steps := steps + [BindDeleted];
    ThenAny(EMPTY, steps, b, CommitCreate(1, "t", "a"), c);
    steps := steps + [CommitCreate(1, "t", "a")];
    ThenAny(EMPTY, steps, c, Refresh(1), d);
    steps := steps + [Refresh(1)];
    ThenAny(EMPTY, steps, d, CommitDelete(1), e);
    steps := steps + [CommitDelete(1)];
    ThenAny(EMPTY, steps, e, PublishDeleted(GONE), OVERTAKEN_CREATION);
    steps := steps + [PublishDeleted(GONE)];
  }

  /** Then the creation is published too, and the sync deletes what is not there yet. */
  const BOTH_QUEUED := OVERTAKEN_CREATION.(creating := map[], queue := [Event.Deleted(GONE), Created(LIVE)],
                                           sync := Applying(GONE_SOURCE, 0, {}, true),
                                           past := Past({}, {}, {1}, {1}, {}, {1}, {}))

  lemma QueuesBoth() returns (steps: seq<Step>)
    ensures Run(EMPTY, steps) && Final(EMPTY, steps) == BOTH_QUEUED
  {
    var g := OVERTAKEN_CREATION.(creating := map[], queue := [Event.Deleted(GONE), Created(LIVE)],
                                 past := Past({}, {}, {1}, {1}, {}, {}, {}));
    var h := g.(sync := Applying(GONE_SOURCE, 0, {1}, true));
    assert GONE_SOURCE.Keys == {1};
    steps := DeletionOvertakes();
    ThenAny(EMPTY, steps, OVERTAKEN_CREATION, PublishCreated(1), g);
    steps := steps + [PublishCreated(1)];
    ThenAny(EMPTY, steps, g, ReadSnapshot(0), h);
    steps := steps + [ReadSnapshot(0)];
    assert h.sync.todo - {1} == {} && h.past.swept + {1} == {1} && h.rows - {1} == h.rows;
    ThenAny(EMPTY, steps, h, WriteOne(1), BOTH_QUEUED);
    steps := steps + [WriteOne(1)];
  }

  /** A run that publishes the deletion first: it keeps an event row though both keys were bound all
      along and the deletion was delivered, so for the results in order the order is needed. */
  lemma OrderIsNeeded() returns (steps: seq<Step>)
    ensures Ended(EMPTY, steps) && CreatedFirst(EMPTY) && Final(EMPTY, steps).sync.bound
    ensures Final(EMPTY, steps).past.window == {} && 1 in Final(EMPTY, steps).past.arrived
    ensures IsDeleted(Final(EMPTY, steps), 1) && StaleByEvent(Final(EMPTY, steps), 1)
    ensures Row(Final(EMPTY, steps).rows, 1) == Some(EVENT_STAMP)
  {
    var j := BOTH_QUEUED.(queue := [Created(LIVE)]);
    var k := j.(queue := [], rows := map[1 := EVENT_STAMP], past := Past({}, {}, {1}, {1}, {}, {1}, {1}));
    var l := k.(sync := Done(GONE_SOURCE, true));
    steps := QueuesBoth();
    ThenAny(EMPTY, steps, BOTH_QUEUED, Deliver, j);
    steps := steps + [Deliver];
    ThenAny(EMPTY, steps, j, Deliver, k);
    steps := steps + [Deliver];
    ThenAny(EMPTY, steps, k, SyncEnds, l);
    steps := steps + [SyncEnds];
  }

  /** Book 1 published between the bindings, and its deletion too. */
  const BETWEEN := EMPTY.(source := GONE_SOURCE, boundCreated := true, queue := [Created(LIVE)],
                          past := Past({}, {1}, {}, {1}, {}, {}, {}))

  lemma PublishedBetween() returns (steps: seq<Step>)
    ensures Reaches(steps, BETWEEN)
  {
    var a := EMPTY.(boundCreated := true);
    var b := a.(source := LIVE_SOURCE, creating := map[1 := Committed]);
    var c := b.(creating := map[1 := Refreshed(LIVE)]);
    var d := c.(creating := map[], queue := [Created(LIVE)], past := Past({}, {1}, {}, {1}, {}, {}, {}));
    var e := d.(source := GONE_SOURCE, deleting := multiset{GONE});
    Then([], EMPTY, BindCreated, a);
    steps := [] + [BindCreated];
    Then(steps, a, CommitCreate(1, "t", "a"), b);
    steps := steps + [CommitCreate(1, "t", "a")];
    Then(steps, b, Refresh(1), c);
    steps := steps + [Refresh(1)];
    Then(steps, c, PublishCreated(1), d);
    steps := steps + [PublishCreated(1)];
    Then(steps, d, CommitDelete(1), e);
    steps := steps + [CommitDelete(1)];
    Then(steps, e, PublishDeleted(GONE), BETWEEN);
    steps := steps + [PublishDeleted(GONE)];
  }

  /** Then the sync deletes what is not there yet. */
  const SWEPT_BETWEEN := BETWEEN.(boundDeleted := true, sync := Applying(GONE_SOURCE, 0, {}, true),
                                  past := Past({}, {1}, {}, {1}, {}, {1}, {}))

  lemma SweptFirst() returns (steps: seq<Step>)
    ensures Reaches(steps, SWEPT_BETWEEN)
  {
    var g := BETWEEN.(boundDeleted := true);
    var h := g.(sync := Applying(GONE_SOURCE, 0, {1}, true));
    assert GONE_SOURCE.Keys == {1};
    steps := PublishedBetween();
    Then(steps, BETWEEN, BindDeleted, g);
    steps := steps + [BindDeleted];
    Then(steps, g, ReadSnapshot(0), h);
    steps := steps + [ReadSnapshot(0)];
    assert h.sync.todo - {1} == {} && h.past.swept + {1} == {1} && h.rows - {1} == h.rows;
    Then(steps, h, WriteOne(1), SWEPT_BETWEEN);
    steps := steps + [WriteOne(1)];
  }

  /** A settled run that keeps an event row for a deleted book: the creation is published after the
      first binding and the deletion before the second, and the sync runs before the delivery. */
  lemma EventRowCanBeStale() returns (steps: seq<Step>)
    ensures Settled(EMPTY, steps)
    ensures IsDeleted(Final(EMPTY, steps), 1) && StaleByLateEvent(Final(EMPTY, steps), 1)
    ensures Row(Final(EMPTY, steps).rows, 1) == Some(EVENT_STAMP)
  {
    var j := SWEPT_BETWEEN.(queue := [], rows := map[1 := EVENT_STAMP], past := Past({}, {1}, {}, {1}, {}, {1}, {1}));
    var k := j.(sync := Done(GONE_SOURCE, true));
    steps := SweptFirst();
    Then(steps, SWEPT_BETWEEN, Deliver, j);
    steps := steps + [Deliver];
    Then(steps, j, SyncEnds, k);
    steps := steps + [SyncEnds];
  }

  /** A service that starts with the event row of a live book left by an earlier life. */
  const INHERITED := EMPTY.(source := LIVE_SOURCE, rows := map[1 := EVENT_STAMP],
                            past := Past({1}, {}, {}, {}, {}, {}, {}))

  /** A settled run that keeps it after the book's deletion: the snapshot is read before the deletion,
      and the deletion published before the bindings. */
  lemma InheritedRowCanBeStale() returns (steps: seq<Step>)
    ensures Ended(INHERITED, steps)
    ensures IsDeleted(Final(INHERITED, steps), 1) && StaleUntold(Final(INHERITED, steps), 1)
    ensures Row(Final(INHERITED, steps).rows, 1) == Some(EVENT_STAMP)
  {
    assert Init(INHERITED) by {
      assert LIVE_SOURCE.Keys == {1};
      assert INHERITED.past.missed == LIVE_SOURCE.Keys - INHERITED.creating.Keys;
    }
    var a := INHERITED.(sync := Applying(LIVE_SOURCE, 0, {1}, false));
    var b := a.(sync := Applying(LIVE_SOURCE, 0, {}, false));
    var c := b.(source := GONE_SOURCE, deleting := multiset{GONE});
    var d := c.(deleting := multiset{});
    var e := d.(boundCreated := true);
    var f := e.(boundDeleted := true);
    var g := f.(sync := Done(LIVE_SOURCE, false));
    assert LIVE_SOURCE.Keys == {1};
    ThenAny(INHERITED, [], INHERITED, ReadSnapshot(0), a);
    steps := [] + [ReadSnapshot(0)];
    assert a.sync.todo - {1} == {};
    ThenAny(INHERITED, steps, a, WriteOne(1), b);
    steps := steps + [WriteOne(1)];
    ThenAny(INHERITED, steps, b, CommitDelete(1), c);
    steps := steps + [CommitDelete(1)];
    ThenAny(INHERITED, steps, c, PublishDeleted(GONE), d);
    steps := steps + [PublishDeleted(GONE)];
    ThenAny(INHERITED, steps, d, BindCreated, e);
    steps := steps + [BindCreated];
    ThenAny(INHERITED, steps, e, BindDeleted, f);
    steps := steps + [BindDeleted];
    ThenAny(INHERITED, steps, f, SyncEnds, g);
    steps := steps + [SyncEnds];
  }

  /** Book 1 committed after the empty snapshot was read, and its creation published before the bindings. */
  const UNSEEN := EMPTY.(source := LIVE_SOURCE, sync := Done(map[], false), past := Past({1}, {}, {}, {}, {}, {}, {}))

  lemma SyncsEmpty() returns (steps: seq<Step>)
    ensures Run(EMPTY, steps) && Final(EMPTY, steps) == EMPTY.(sync := Done(map[], false))
  {
    assert EMPTY.source.Keys == {};
    var a := EMPTY.(sync := Applying(map[], 0, {}, false));
    ThenAny(EMPTY, [], EMPTY, ReadSnapshot(0), a);
    steps := [] + [ReadSnapshot(0)];
    ThenAny(EMPTY, steps, a, SyncEnds, EMPTY.(sync := Done(map[], false)));
    steps := steps + [SyncEnds];
  }

  /** A settled run without the bindings that leaves a live book without a row. */
  lemma LiveBookCanBeMissing() returns (steps: seq<Step>)
    ensures Ended(EMPTY, steps)
    ensures 1 in LiveIds(Final(EMPTY, steps).source) && 1 !in Final(EMPTY, steps).rows
    ensures 1 in Final(EMPTY, steps).past.missed && 1 !in Final(EMPTY, steps).sync.snapshot
  {
    assert EMPTY.past.missed + {1} == {1};
    var b := EMPTY.(sync := Done(map[], false));
    var c := b.(source := LIVE_SOURCE, creating := map[1 := Committed]);
    var d := c.(creating := map[1 := Refreshed(LIVE)]);
    steps := SyncsEmpty();
    ThenAny(EMPTY, steps, b, CommitCreate(1, "t", "a"), c);
    steps := steps + [CommitCreate(1, "t", "a")];
    ThenAny(EMPTY, steps, c, Refresh(1), d);
    steps := steps + [Refresh(1)];
    ThenAny(EMPTY, steps, d, PublishCreated(1), UNSEEN);
    steps := steps + [PublishCreated(1)];
  }
}
