/** Book replication as one state machine: requests at the book service, the broker's queue, the
    review service's event consumer and its startup sync, each advancing by its own atomic steps. */
module Replication {
  import opened Basics
  import opened Books
  import Replica

  /** A `create_book` request between its commit and its publish: the row is re-read in between. */
  datatype Stage = Committed | Refreshed(dto: BookDto)

  /** The sync worker: waiting to try, executing the bulk write of a snapshot, or finished. `bound`
      remembers whether both routing keys were bound when the snapshot was read. */
  datatype Sync =
    | Waiting
    | Applying(snapshot: Table, millis: int, todo: set<int>, bound: bool)
    | Done(snapshot: Table, bound: bool)

  /** What has happened so far; no step depends on it. */
  datatype Past = Past(
    missed: set<int>,     // created event published before "book.created" was bound
    window: set<int>,     // created event queued before "book.deleted" was bound
    arrived: set<int>,    // some deleted event was queued
    tail: set<int>,       // the last event queued about it is its created event
    upserted: set<int>,   // an upsert of the sync found no row and wrote one
    swept: set<int>,      // the sync executed a delete for it
    late: set<int>)       // created event delivered after the current snapshot's delete for it

  datatype World = World(
    source: Table,
    creating: map<int, Stage>,      // requests that committed a book and have not published it
    deleting: multiset<BookDto>,    // requests that committed a deletion and have not published it
    boundCreated: bool,
    boundDeleted: bool,
    queue: seq<Event>,
    rows: Replica.Rows,
    sync: Sync,
    past: Past)

  datatype Step =
    | CommitCreate(id: int, title: string, author: string)
    | Refresh(id: int)
    | PublishCreated(id: int)
    | CommitDelete(id: int)
    | PublishDeleted(dto: BookDto)
    | BindCreated
    | BindDeleted
    | Deliver
    | ReadSnapshot(millis: int)
    | WriteOne(id: int)
    | SyncFails
    | SyncEnds

  function Todo(sync: Sync): set<int> {
    if sync.Applying? then sync.todo else {}
  }

  predicate SnapshotDeleted(sync: Sync, id: int) {
    !sync.Waiting? && id in sync.snapshot && sync.snapshot[id].isDeleted
  }

  predicate SnapshotLive(sync: Sync, id: int) {
    !sync.Waiting? && id in sync.snapshot && !sync.snapshot[id].isDeleted
  }

  /** The operation the snapshot prescribes for one of its books. */
  function SyncOp(sync: Sync, id: int): Replica.Op
    requires sync.Applying? && id in sync.snapshot
  {
    if sync.snapshot[id].isDeleted then Replica.SyncDelete(id) else Replica.Upsert(id, sync.millis)
  }

  function EventOp(e: Event): Replica.Op {
    match e
    case Created(dto) => Replica.EventInsert(dto.id)
    case Deleted(dto) => Replica.EventDelete(dto.id)
  }

  predicate Enabled(w: World, step: Step) {
    match step
    case CommitCreate(id, _, _) => id !in w.source
    case Refresh(id) => id in w.source && id in w.creating && w.creating[id].Committed?
    case PublishCreated(id) => id in w.creating && w.creating[id].Refreshed?
    case CommitDelete(id) => id in w.source
    case PublishDeleted(dto) => dto in w.deleting
    case BindCreated => !w.boundCreated
    case BindDeleted => w.boundCreated && !w.boundDeleted
    case Deliver => w.boundCreated && w.boundDeleted && w.queue != []
    case ReadSnapshot(_) => w.sync.Waiting?
    case WriteOne(id) => w.sync.Applying? && id in w.sync.todo && id in w.sync.snapshot
    case SyncFails => w.sync.Applying?
    case SyncEnds => w.sync.Applying? && w.sync.todo == {}
  }

  function Apply(w: World, step: Step): World
    requires Enabled(w, step)
  {
    Change(w, step).(past := Record(w, step))
  }

  function Change(w: World, step: Step): World
    requires Enabled(w, step)
  {
    match step
    case CommitCreate(id, title, author) =>
      w.(source := CommitNew(w.source, id, title, author), creating := w.creating[id := Committed])
    case Refresh(id) =>
      w.(creating := w.creating[id := Refreshed(DtoOf(id, w.source[id]))])
    case PublishCreated(id) =>
      w.(creating := w.creating - {id},
         queue := if w.boundCreated then w.queue + [Created(w.creating[id].dto)] else w.queue)
    case CommitDelete(id) =>
      var source := MarkDeleted(w.source, id);
      w.(source := source, deleting := w.deleting + multiset{DtoOf(id, source[id])})
    case PublishDeleted(dto) =>
      w.(deleting := w.deleting - multiset{dto},
         queue := if w.boundDeleted then w.queue + [Deleted(dto)] else w.queue)
    case BindCreated => w.(boundCreated := true)
    case BindDeleted => w.(boundDeleted := true)
    case Deliver =>
      w.(queue := w.queue[1..], rows := Replica.ApplyOp(w.rows, EventOp(w.queue[0])))
    case ReadSnapshot(millis) =>
      w.(sync := Applying(w.source, millis, w.source.Keys, w.boundCreated && w.boundDeleted))
    case WriteOne(id) =>
      w.(rows := Replica.ApplyOp(w.rows, SyncOp(w.sync, id)), sync := w.sync.(todo := w.sync.todo - {id}))
    case SyncFails => w.(sync := Waiting)
    case SyncEnds => w.(sync := Done(w.sync.snapshot, w.sync.bound))
  }

  function Record(w: World, step: Step): Past
    requires Enabled(w, step)
  {
    match step
    case PublishCreated(id) =>
      if !w.boundCreated then w.past.(missed := w.past.missed + {id})
      else if !w.boundDeleted then w.past.(window := w.past.window + {id}, tail := w.past.tail + {id})
      else w.past.(tail := w.past.tail + {id})
    case PublishDeleted(dto) =>
      if w.boundDeleted then w.past.(arrived := w.past.arrived + {dto.id}, tail := w.past.tail - {dto.id}) else w.past
    case Deliver =>
      var e := w.queue[0];
      if e.Created? && SnapshotDeleted(w.sync, e.dto.id) && e.dto.id !in Todo(w.sync)
      then w.past.(late := w.past.late + {e.dto.id})
      else w.past
    case ReadSnapshot(_) => w.past.(late := {})
    case WriteOne(id) =>
      if w.sync.snapshot[id].isDeleted then w.past.(swept := w.past.swept + {id})
      else if id !in w.rows then w.past.(upserted := w.past.upserted + {id})
      else w.past
    case _ => w.past
  }

  // ---- Runs -----------------------------------------------------------------------------------

  ghost predicate Run(w: World, steps: seq<Step>)
    decreases |steps|
  {
    steps == [] || (Enabled(w, steps[0]) && Run(Apply(w, steps[0]), steps[1..]))
  }

  ghost function Final(w: World, steps: seq<Step>): World
    requires Run(w, steps)
    decreases |steps|
  {
    if steps == [] then w else Final(Apply(w, steps[0]), steps[1..])
  }

  /** No deletion is published while the book's creation is still unpublished. */
  predicate InOrder(w: World, step: Step) {
    step.PublishDeleted? ==> step.dto.id !in w.creating
  }

  ghost predicate OrderedRun(w: World, steps: seq<Step>)
    decreases |steps|
  {
    steps == [] || (Enabled(w, steps[0]) && InOrder(w, steps[0]) && OrderedRun(Apply(w, steps[0]), steps[1..]))
  }

  // ---- What the events, requests and snapshots in flight may say --------------------------------

  predicate QueuedCreated(queue: seq<Event>, id: int) {
    exists i :: 0 <= i < |queue| && queue[i].Created? && queue[i].dto.id == id
  }

  predicate Deleting(w: World, id: int) {
    exists dto :: dto in w.deleting && dto.id == id
  }

  /** A message names a committed book, and a deleted mark in it is true at the source. */
  predicate Truthful(source: Table, dto: BookDto) {
    dto.id in source && (dto.isDeleted ==> source[dto.id].isDeleted)
  }

  predicate IsDeleted(w: World, id: int) {
    id in w.source && w.source[id].isDeleted
  }

  ghost predicate SoundCreating(w: World) {
    && (forall id :: id in w.creating ==> id in w.source)
    && (forall id :: id in w.creating && w.creating[id].Refreshed? ==>
          w.creating[id].dto.id == id && Truthful(w.source, w.creating[id].dto))
  }

  ghost predicate SoundDeleting(w: World) {
    forall dto :: dto in w.deleting ==> dto.isDeleted && Truthful(w.source, dto)
  }

  ghost predicate SoundQueue(w: World) {
    && (forall i :: 0 <= i < |w.queue| ==>
          Truthful(w.source, w.queue[i].dto) && (w.queue[i].Deleted? ==> w.queue[i].dto.isDeleted))
    && (w.boundDeleted ==> w.boundCreated)
  }

  ghost predicate SoundRows(w: World) {
    forall id :: id in w.rows ==> id in w.source
  }

  ghost predicate SoundSync(w: World) {
    && (!w.sync.Waiting? ==> Evolves(w.sync.snapshot, w.source))
    && (w.sync.Applying? ==> w.sync.todo <= w.sync.snapshot.Keys)
    && (!w.sync.Waiting? && w.sync.bound ==> w.boundCreated && w.boundDeleted)
  }

  ghost predicate Sound(w: World) {
    SoundCreating(w) && SoundDeleting(w) && SoundQueue(w) && SoundRows(w) && SoundSync(w)
  }

  /** A start of the review service: nothing bound, queued or synced yet, over any source, any
      requests already under way there, and any rows an earlier life of the service left behind. */
  ghost predicate Init(w: World) {
    && Sound(w)
    && !w.boundCreated && !w.boundDeleted && w.queue == [] && w.sync.Waiting?
    && w.past.missed == w.source.Keys - w.creating.Keys
    && w.past.window == {} && w.past.arrived == {} && w.past.tail == {} && w.past.swept == {} && w.past.late == {}
    && w.past.upserted == set id | id in w.rows && w.rows[id] != Replica.EVENT_STAMP
  }

  /** Every request has published, every message has been handled, the sync has finished. */
  predicate Quiescent(w: World) {
    w.creating == map[] && w.deleting == multiset{} && w.queue == [] && w.sync.Done?
  }

  lemma SourceEvolves(w: World, step: Step)
    requires Enabled(w, step)
    ensures Evolves(w.source, Apply(w, step).source)
  {
  }

  lemma TruthStays(before: Table, after: Table)
    requires Evolves(before, after)
    ensures forall dto :: Truthful(before, dto) ==> Truthful(after, dto)
  {
  }

  lemma SoundCreatingStep(w: World, step: Step)
    requires SoundCreating(w) && Enabled(w, step)
    ensures SoundCreating(Apply(w, step))
  {
  }

  lemma SoundDeletingStep(w: World, step: Step)
    requires SoundDeleting(w) && Enabled(w, step)
    ensures SoundDeleting(Apply(w, step))
  {
    var v := Apply(w, step);
    SourceEvolves(w, step);
    TruthStays(w.source, v.source);
    match step
    case CommitDelete(id) => assert v.deleting == w.deleting + multiset{DtoOf(id, v.source[id])};
    case PublishDeleted(dto) => assert v.deleting == w.deleting - multiset{dto};
    case _ => assert v.deleting == w.deleting;
  }

  lemma SoundQueueStep(w: World, step: Step)
    requires Sound(w) && Enabled(w, step)
    ensures SoundQueue(Apply(w, step))
  {
    var v := Apply(w, step);
    SourceEvolves(w, step);
    forall i | 0 <= i < |v.queue|
      ensures Truthful(v.source, v.queue[i].dto) && (v.queue[i].Deleted? ==> v.queue[i].dto.isDeleted)
    {
      if step == Deliver {
        assert v.queue[i] == w.queue[i + 1];
      } else if i < |w.queue| {
        assert v.queue[i] == w.queue[i];
      }
    }
  }

  lemma StepKeepsSnapshot(w: World, step: Step)
    requires Enabled(w, step) && !step.ReadSnapshot? && !Apply(w, step).sync.Waiting?
    ensures !w.sync.Waiting?
    ensures Apply(w, step).sync.snapshot == w.sync.snapshot && Apply(w, step).sync.bound == w.sync.bound
  {
    var v := Change(w, step);
    assert Apply(w, step).sync == v.sync;
    match step
    case WriteOne(id) => assert v.sync == w.sync.(todo := w.sync.todo - {id});
    case SyncEnds => assert v.sync == Done(w.sync.snapshot, w.sync.bound);
    case SyncFails =>
    case _ => assert v.sync == w.sync;
  }

  lemma EvolvesTransitive(a: Table, b: Table, c: Table)
    requires Evolves(a, b) && Evolves(b, c)
    ensures Evolves(a, c)
  {
  }

  lemma SoundRowsStep(w: World, step: Step)
    requires SoundRows(w) && SoundQueue(w) && SoundSync(w) && Enabled(w, step)
    ensures SoundRows(Apply(w, step))
  {
  }

  lemma SoundSyncStep(w: World, step: Step)
    requires SoundSync(w) && Enabled(w, step)
    ensures SoundSync(Apply(w, step))
  {
    var v := Apply(w, step);
    SourceEvolves(w, step);
    if !v.sync.Waiting? && !step.ReadSnapshot? {
      StepKeepsSnapshot(w, step);
      EvolvesTransitive(w.sync.snapshot, w.source, v.source);
    }
    match step
    case WriteOne(id) => assert v.sync.todo == w.sync.todo - {id};
    case ReadSnapshot(_) => assert v.sync.snapshot == w.source;
    case _ => assert v.sync.Applying? ==> v.sync == w.sync;
  }

  lemma SoundStep(w: World, step: Step)
    requires Sound(w) && Enabled(w, step)
    ensures Sound(Apply(w, step))
  {
    SoundCreatingStep(w, step);
    SoundDeletingStep(w, step);
    SoundQueueStep(w, step);
    SoundRowsStep(w, step);
    SoundSyncStep(w, step);
  }

  /** In every reachable state each message, request and snapshot entry in flight names a committed
      book, its deleted mark is true at the source, and only committed books have rows; and from one
      state to any later one no book disappears and no deletion is undone. */
  lemma {:induction false} SoundAlways(w: World, steps: seq<Step>)
    requires Sound(w) && Run(w, steps)
    ensures Sound(Final(w, steps))
    ensures Evolves(w.source, Final(w, steps).source)
    decreases |steps|
  {
    if steps != [] {
      SoundStep(w, steps[0]);
      SourceEvolves(w, steps[0]);
      SoundAlways(Apply(w, steps[0]), steps[1..]);
    }
  }

  // ---- Completeness ---------------------------------------------------------------------------

  /** Where a live book is on its way to a row. */
  ghost predicate CoveredByEvent(w: World) {
    forall id :: id in w.source && !w.source[id].isDeleted ==>
      id in w.creating || QueuedCreated(w.queue, id) || id in w.past.missed || id in w.rows
  }

  ghost predicate CoveredBySync(w: World) {
    forall id :: SnapshotLive(w.sync, id) && !IsDeleted(w, id) ==> id in Todo(w.sync) || id in w.rows
  }

  /** A book is created once, so its created event is in one place. */
  ghost predicate CreatedOnce(w: World) {
    && (forall id :: id in w.past.missed ==> id in w.source)
    && (forall id :: id in w.creating ==> id !in w.past.missed && !QueuedCreated(w.queue, id))
    && (forall id :: id in w.past.missed ==> !QueuedCreated(w.queue, id))
  }

  /** Once a snapshot is read, a row outside it can only have come from a delivered event. */
  ghost predicate OutsideIsEvent(w: World) {
    !w.sync.Waiting? ==> forall id :: id in w.rows && id !in w.sync.snapshot ==> w.rows[id] == Replica.EVENT_STAMP
  }

  ghost predicate OutsideIsDelivered(w: World) {
    !w.sync.Waiting? ==> forall id :: id in w.rows && id !in w.sync.snapshot ==>
      id !in w.past.missed && id !in w.creating
  }

  ghost predicate NoneMissedOnceBound(w: World) {
    !w.sync.Waiting? && w.sync.bound ==> forall id :: id in w.past.missed ==> id in w.sync.snapshot
  }

  ghost predicate Complete(w: World) {
    Sound(w) && CoveredByEvent(w) && CoveredBySync(w) && CreatedOnce(w) && OutsideIsEvent(w)
    && OutsideIsDelivered(w) && NoneMissedOnceBound(w)
  }

  lemma QueueAppend(queue: seq<Event>, e: Event)
    ensures forall id :: QueuedCreated(queue + [e], id) <==> QueuedCreated(queue, id) || (e.Created? && e.dto.id == id)
  {
    forall id | QueuedCreated(queue, id) ensures QueuedCreated(queue + [e], id) {
      var i :| 0 <= i < |queue| && queue[i].Created? && queue[i].dto.id == id;
      assert (queue + [e])[i] == queue[i];
    }
    if e.Created? {
      assert (queue + [e])[|queue|] == e;
    }
  }

  lemma QueueTail(queue: seq<Event>)
    requires queue != []
    ensures forall id :: QueuedCreated(queue, id) <==>
              QueuedCreated(queue[1..], id) || (queue[0].Created? && queue[0].dto.id == id)
  {
  }

  lemma QueueAfter(w: World, step: Step)
    requires Enabled(w, step)
    ensures forall id :: QueuedCreated(Apply(w, step).queue, id) ==>
              QueuedCreated(w.queue, id) || (step.PublishCreated? && w.creating[step.id].dto.id == id)
    ensures forall id :: QueuedCreated(w.queue, id) ==>
              QueuedCreated(Apply(w, step).queue, id)
              || (step == Deliver && EventOp(w.queue[0]) == Replica.EventInsert(id))
  {
    match step
    case PublishCreated(id) =>
      QueueAppend(w.queue, Created(w.creating[id].dto));
    case PublishDeleted(dto) =>
      QueueAppend(w.queue, Deleted(dto));
    case Deliver =>
      QueueTail(w.queue);
    case _ =>
  }

  /** A step takes away only rows of books deleted at the source. */
  lemma RowsKept(w: World, step: Step)
    requires SoundQueue(w) && SoundRows(w) && SoundSync(w) && Enabled(w, step)
    ensures forall id :: id in w.rows && !IsDeleted(w, id) ==> id in Apply(w, step).rows
  {
  }

  lemma CoveredByEventStep(w: World, step: Step)
    requires Sound(w) && CoveredByEvent(w) && Enabled(w, step)
    ensures CoveredByEvent(Apply(w, step))
  {
    QueueAfter(w, step);
    RowsKept(w, step);
    SourceEvolves(w, step);
    match step
    case PublishCreated(id) =>
      QueueAppend(w.queue, Created(w.creating[id].dto));
    case _ =>
  }

  lemma CoveredBySyncStep(w: World, step: Step)
    requires Sound(w) && CoveredBySync(w) && Enabled(w, step)
    ensures CoveredBySync(Apply(w, step))
  {
    RowsKept(w, step);
    SourceEvolves(w, step);
  }

  lemma CreatedOnceStep(w: World, step: Step)
    requires Sound(w) && CreatedOnce(w) && Enabled(w, step)
    ensures CreatedOnce(Apply(w, step))
  {
    var v := Apply(w, step);
    assert v.past == Record(w, step) && v.creating == Change(w, step).creating;
    QueueAfter(w, step);
    match step
    case CommitCreate(id, _, _) => assert !QueuedCreated(w.queue, id) && v.past.missed == w.past.missed;
    case PublishCreated(id) => assert id !in w.past.missed && id !in v.creating;
    case _ => assert v.past.missed == w.past.missed && v.creating.Keys == w.creating.Keys;
  }

  lemma OutsideIsEventStep(w: World, step: Step)
    requires SoundRows(w) && SoundSync(w) && OutsideIsEvent(w) && Enabled(w, step)
    ensures OutsideIsEvent(Apply(w, step))
  {
  }

  lemma OutsideIsDeliveredStep(w: World, step: Step)
    requires Sound(w) && CreatedOnce(w) && OutsideIsDelivered(w) && Enabled(w, step)
    ensures OutsideIsDelivered(Apply(w, step))
  {
    var v := Apply(w, step);
    assert v.past == Record(w, step);
    if !v.sync.Waiting? && !step.ReadSnapshot? {
      StepKeepsSnapshot(w, step);
      assert step == Deliver && w.queue[0].Created? ==> QueuedCreated(w.queue, w.queue[0].dto.id);
      assert step.WriteOne? ==> step.id in w.sync.snapshot;
    }
  }

  lemma NoneMissedStep(w: World, step: Step)
    requires Sound(w) && NoneMissedOnceBound(w) && CreatedOnce(w) && Enabled(w, step)
    ensures NoneMissedOnceBound(Apply(w, step))
  {
  }

  lemma CompleteStep(w: World, step: Step)
    requires Complete(w) && Enabled(w, step)
    ensures Complete(Apply(w, step))
  {
    SoundStep(w, step);
    CoveredByEventStep(w, step);
    CoveredBySyncStep(w, step);
    CreatedOnceStep(w, step);
    OutsideIsEventStep(w, step);
    OutsideIsDeliveredStep(w, step);
    NoneMissedStep(w, step);
  }

  lemma {:induction false} CompleteAlways(w: World, steps: seq<Step>)
    requires Complete(w) && Run(w, steps)
    ensures Complete(Final(w, steps))
    decreases |steps|
  {
    if steps != [] {
      CompleteStep(w, steps[0]);
      CompleteAlways(Apply(w, steps[0]), steps[1..]);
    }
  }

  // ---- What the recorded past means -----------------------------------------------------------

  /** Some step of the run, in the state it is taken from, satisfies `p`. */
  ghost predicate Happens(w: World, steps: seq<Step>, p: (World, Step) -> bool)
    requires Run(w, steps)
    decreases |steps|
  {
    steps != [] && (p(w, steps[0]) || Happens(Apply(w, steps[0]), steps[1..], p))
  }

  /** Some step satisfies `p`, and none after it satisfies `q`. */
  ghost predicate HappensLast(w: World, steps: seq<Step>, p: (World, Step) -> bool, q: (World, Step) -> bool)
    requires Run(w, steps)
    decreases |steps|
  {
    steps != [] &&
    (var v := Apply(w, steps[0]);
     (p(w, steps[0]) && !Happens(v, steps[1..], q)) || HappensLast(v, steps[1..], p, q))
  }

  lemma {:induction false} HappensSnoc(w: World, steps: seq<Step>, step: Step, p: (World, Step) -> bool)
    requires Run(w, steps) && Enabled(Final(w, steps), step) && Run(w, steps + [step])
    ensures Happens(w, steps + [step], p) <==> Happens(w, steps, p) || p(Final(w, steps), step)
    decreases |steps|
  {
    if steps == [] {
      assert [] + [step] == [step] && [step][1..] == [];
    } else {
      assert (steps + [step])[1..] == steps[1..] + [step];
      HappensSnoc(Apply(w, steps[0]), steps[1..], step, p);
    }
  }

  lemma {:induction false} HappensLastSnoc(w: World, steps: seq<Step>, step: Step,
                                           p: (World, Step) -> bool, q: (World, Step) -> bool)
    requires Run(w, steps) && Enabled(Final(w, steps), step) && Run(w, steps + [step])
    ensures HappensLast(w, steps + [step], p, q) <==>
              p(Final(w, steps), step) || (HappensLast(w, steps, p, q) && !q(Final(w, steps), step))
    decreases |steps|
  {
    if steps == [] {
      assert [] + [step] == [step] && [step][1..] == [];
    } else {
      assert (steps + [step])[1..] == steps[1..] + [step];
      HappensLastSnoc(Apply(w, steps[0]), steps[1..], step, p, q);
      HappensSnoc(Apply(w, steps[0]), steps[1..], step, q);
    }
  }

  ghost function Missed(id: int): (World, Step) -> bool {
    (u: World, s: Step) => s == PublishCreated(id) && !u.boundCreated
  }

  ghost function InWindow(id: int): (World, Step) -> bool {
    (u: World, s: Step) => s == PublishCreated(id) && u.boundCreated && !u.boundDeleted
  }

  ghost function CreatedQueued(id: int): (World, Step) -> bool {
    (u: World, s: Step) => s == PublishCreated(id) && u.boundCreated
  }

  ghost function Arrived(id: int): (World, Step) -> bool {
    (u: World, s: Step) => s.PublishDeleted? && s.dto.id == id && u.boundDeleted
  }

  ghost function UpsertWrote(id: int): (World, Step) -> bool {
    (u: World, s: Step) => s == WriteOne(id) && SnapshotLive(u.sync, id) && id !in u.rows
  }

  /** The created event is delivered when the current snapshot's delete for the book has run. */
  ghost function DeliveredLate(id: int): (World, Step) -> bool {
    (u: World, s: Step) =>
      && s.Deliver? && u.queue != [] && u.queue[0].Created? && u.queue[0].dto.id == id
      && SnapshotDeleted(u.sync, id) && id !in Todo(u.sync)
  }

  ghost function CreatedDelivered(id: int): (World, Step) -> bool {
    (u: World, s: Step) => s.Deliver? && u.queue != [] && u.queue[0].Created? && u.queue[0].dto.id == id
  }

  ghost function DeletedDelivered(id: int): (World, Step) -> bool {
    (u: World, s: Step) => s.Deliver? && u.queue != [] && u.queue[0].Deleted? && u.queue[0].dto.id == id
  }

  ghost function Written(id: int): (World, Step) -> bool {
    (u: World, s: Step) => s == WriteOne(id)
  }

  ghost function SnapshotRead(): (World, Step) -> bool {
    (u: World, s: Step) => s.ReadSnapshot?
  }

  /** The recorded past speaks of the run: each mark was there at the start, or some step put it there,
      and no later step took it back. */
  lemma {:induction false} PastMeans(w: World, steps: seq<Step>, id: int)
    requires Run(w, steps)
    ensures id in Final(w, steps).past.missed <==> (id in w.past.missed || Happens(w, steps, Missed(id)))
    ensures id in Final(w, steps).past.window <==> (id in w.past.window || Happens(w, steps, InWindow(id)))
    ensures id in Final(w, steps).past.arrived <==> (id in w.past.arrived || Happens(w, steps, Arrived(id)))
    ensures id in Final(w, steps).past.upserted <==> (id in w.past.upserted || Happens(w, steps, UpsertWrote(id)))
    ensures id in Final(w, steps).past.tail <==>
              ((id in w.past.tail && !Happens(w, steps, Arrived(id)))
               || HappensLast(w, steps, CreatedQueued(id), Arrived(id)))
    ensures id in Final(w, steps).past.late <==>
              ((id in w.past.late && !Happens(w, steps, SnapshotRead()))
               || HappensLast(w, steps, DeliveredLate(id), SnapshotRead()))
    decreases |steps|
  {
    if steps != [] {
      PastMeansStep(w, steps[0], id);
      LateMeansStep(w, steps[0], id);
      PastMeans(Apply(w, steps[0]), steps[1..], id);
    }
  }

  lemma PastMeansStep(w: World, step: Step, id: int)
    requires Enabled(w, step)
    ensures id in Apply(w, step).past.missed <==> (id in w.past.missed || Missed(id)(w, step))
    ensures id in Apply(w, step).past.window <==> (id in w.past.window || InWindow(id)(w, step))
    ensures id in Apply(w, step).past.arrived <==> (id in w.past.arrived || Arrived(id)(w, step))
    ensures id in Apply(w, step).past.upserted <==> (id in w.past.upserted || UpsertWrote(id)(w, step))
    ensures id in Apply(w, step).past.tail <==>
              (CreatedQueued(id)(w, step) || (id in w.past.tail && !Arrived(id)(w, step)))
  {
    assert Apply(w, step).past == Record(w, step);
  }

  lemma LateMeansStep(w: World, step: Step, id: int)
    requires Enabled(w, step)
    ensures id in Apply(w, step).past.late <==>
              (DeliveredLate(id)(w, step) || (id in w.past.late && !SnapshotRead()(w, step)))
  {
    assert Apply(w, step).past == Record(w, step);
  }

  lemma {:induction false} SnapshotStays(w: World, steps: seq<Step>)
    requires Run(w, steps) && !Happens(w, steps, SnapshotRead()) && !Final(w, steps).sync.Waiting?
    ensures !w.sync.Waiting? && Final(w, steps).sync.snapshot == w.sync.snapshot
    decreases |steps|
  {
    if steps != [] {
      SnapshotStays(Apply(w, steps[0]), steps[1..]);
      StepKeepsSnapshot(w, steps[0]);
    }
  }

  lemma DoneMeansStep(w: World, step: Step, id: int)
    requires Enabled(w, step) && !Apply(w, step).sync.Waiting? && id in Apply(w, step).sync.snapshot
    ensures id !in Todo(Apply(w, step).sync) <==>
              (Written(id)(w, step) || (!w.sync.Waiting? && id !in Todo(w.sync) && !SnapshotRead()(w, step)))
  {
    assert Apply(w, step).sync == Change(w, step).sync;
  }

  /** An entry of the current snapshot is off the sync's list exactly when its operation has run since
      that snapshot was read. */
  lemma {:induction false} DoneMeans(w: World, steps: seq<Step>, id: int)
    requires Run(w, steps) && !Final(w, steps).sync.Waiting? && id in Final(w, steps).sync.snapshot
    ensures id !in Todo(Final(w, steps).sync) <==>
              ((!w.sync.Waiting? && id !in Todo(w.sync) && !Happens(w, steps, SnapshotRead()))
               || HappensLast(w, steps, Written(id), SnapshotRead()))
    decreases |steps|
  {
    if steps != [] {
      var v, rest := Apply(w, steps[0]), steps[1..];
      DoneMeans(v, rest, id);
      if !Happens(v, rest, SnapshotRead()) {
        SnapshotStays(v, rest);
        DoneMeansStep(w, steps[0], id);
      }
    }
  }

  /** The current snapshot is what the source held at the run's last snapshot read. */
  ghost predicate ReadAt(w: World, steps: seq<Step>, i: int, snapshot: Table, bound: bool) {
    && 0 <= i < |steps| && Run(w, steps[..i]) && steps[i].ReadSnapshot?
    && (forall j :: i < j < |steps| ==> !steps[j].ReadSnapshot?)
    && snapshot == Final(w, steps[..i]).source
    && bound == (Final(w, steps[..i]).boundCreated && Final(w, steps[..i]).boundDeleted)
  }

  lemma {:induction false} SnapshotMeans(w: World, steps: seq<Step>)
    requires Run(w, steps) && w.sync.Waiting? && !Final(w, steps).sync.Waiting?
    ensures exists i :: ReadAt(w, steps, i, Final(w, steps).sync.snapshot, Final(w, steps).sync.bound)
    decreases |steps|
  {
    var v := Final(w, steps);
    var front, last := steps[..|steps| - 1], steps[|steps| - 1];
    assert steps == front + [last];
    RunSplit(w, front, last);
    if last.ReadSnapshot? {
      assert steps[..|front|] == front;
      assert ReadAt(w, steps, |front|, v.sync.snapshot, v.sync.bound);
    } else {
      StepKeepsSnapshot(Final(w, front), last);
      SnapshotMeans(w, front);
      var i :| ReadAt(w, front, i, v.sync.snapshot, v.sync.bound);
      ReadAtLater(w, front, last, i, v.sync.snapshot, v.sync.bound);
      assert ReadAt(w, steps, i, v.sync.snapshot, v.sync.bound);
    }
  }

  lemma ReadAtLater(w: World, front: seq<Step>, last: Step, i: int, snapshot: Table, bound: bool)
    requires !last.ReadSnapshot? && ReadAt(w, front, i, snapshot, bound)
    ensures ReadAt(w, front + [last], i, snapshot, bound)
  {
    assert (front + [last])[..i] == front[..i];
  }

  lemma {:induction false} RunSplit(w: World, steps: seq<Step>, step: Step)
    ensures Run(w, steps + [step]) <==> Run(w, steps) && Enabled(Final(w, steps), step)
    ensures Run(w, steps + [step]) ==> Final(w, steps + [step]) == Apply(Final(w, steps), step)
    decreases |steps|
  {
    if steps == [] {
      assert [] + [step] == [step] && [step][1..] == [];
      if Enabled(w, step) {
        assert Run(Apply(w, step), []);
        assert Final(Apply(w, step), []) == Apply(w, step);
      }
    } else {
      assert (steps + [step])[1..] == steps[1..] + [step];
      if Enabled(w, steps[0]) {
        RunSplit(Apply(w, steps[0]), steps[1..], step);
      }
    }
  }

  /** Exactly which live books the replica lacks once everything has settled, in any interleaving:
      those committed after the finished snapshot was read whose created event was published before
      the routing key was bound. */
  lemma MissingExactly(w: World, steps: seq<Step>, id: int)
    requires Init(w) && Run(w, steps) && Quiescent(Final(w, steps))
    requires id in LiveIds(Final(w, steps).source)
    ensures var v := Final(w, steps);
            id !in v.rows <==> id !in v.sync.snapshot && id in v.past.missed
  {
    CompleteAlways(w, steps);
  }

  /** With both keys bound before the finished snapshot was read, no live book is missing. */
  lemma Completeness(w: World, steps: seq<Step>)
    requires Init(w) && Run(w, steps) && Quiescent(Final(w, steps)) && Final(w, steps).sync.bound
    ensures LiveIds(Final(w, steps).source) <= Final(w, steps).rows.Keys
  {
    CompleteAlways(w, steps);
    forall id | id in LiveIds(Final(w, steps).source) ensures id in Final(w, steps).rows {
      MissingExactly(w, steps, id);
    }
  }
}
