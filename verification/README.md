# BookHub: models and proofs

A Dafny model of the state machines inside the BookHub services, with proofs of what they keep.
`dafny verify dfyconfig.toml` checks all of it.

| file | what it models |
|---|---|
| `Books.dfy` | the book service: rows with fresh ids and permanent soft deletes, and the messages its handlers publish |
| `Replica.dfy` | the review service's `books` collection under its unique index, the event handlers and the delivery loop |
| `BookSync.dfy` | the startup sync: snapshot, unordered bulk write, retry loop |
| `Replication.dfy` | all of that as one interleaved state machine, its inductive invariant, and completeness |
| `Staleness.dfy` | which rows are left for deleted books, exactly |
| `Correspondence.dfy` | the code of the two services as steps and runs of that machine |
| `Health.dfy`, `HealthMachine.dfy` | the health monitor's table, sequentially and with concurrent processors and pass |
| `FalseAlarms.dfy`, `LostHeartbeats.dfy` | what can go wrong there for a service that keeps sending in time, exactly |
| `HealthCorrespondence.dfy` | a message and a whole pass of the code as steps of that machine |
| `Avatars.dfy` | the media service's avatar directory under coroutine interleaving |
| `Credentials.dfy` | the user service's accounts, with requests split at their database statements |
| `GoRetry.dfy`, `DeclareBackoff.dfy`, `Powers.dfy` | the two exponential backoffs |
| `Basics.dfy` | what several of these need |

## What is proved

**Replication.** A run interleaves commits, refreshes and publishes at the book service, the two queue
bindings, deliveries, snapshot reads, single operations of an unordered bulk write, and sync failures. A
start may have any source, any requests under way and any rows left by an earlier life of the service.

* Once everything has settled a live book is missing from the replica if and only if it was committed
  after the finished snapshot was read and its created event was published before "book.created" was
  bound. So with the bindings before the snapshot nothing is missing.
  `LiveBookCanBeMissing` is a run without the bindings that leaves one out.
* Once everything has settled a deleted book keeps a row if and only if one of three things holds: a sync
  upsert wrote its row and the deletion was committed after the finished snapshot was read; or its creation
  is the last event about it that was queued, and was delivered after the sync's delete for it if the
  snapshot had it deleted; or the snapshot had it live and no deletion of it ever reached the queue. This is
  for every order of the two publications and of the bindings. What the third adds to the first two is an
  event row left by an earlier life of the service (`InheritedRowCanBeStale`); it needs a deletion published
  before the second binding, so with the bindings before the snapshot the first two remain.
* The replica equals the live books exactly when no live book was missed and no deleted one is stale.
* When each book's creation is published before its deletion, and the bindings come before the snapshot,
  an event row is stale only for a book whose creation was published after the first binding and whose
  deletion was published before the second: the consumer binds its two keys by two calls
  (`book_consumer.go:67-74`). `EventRowCanBeStale` is such a run; when no created event falls between the
  two calls, no event row is ever stale. `OrderIsNeeded` is a run with the publications out of order, which
  the suspension between commit and publish allows, and `SyncRowCanBeStale` one for the first case.
* The delete handler filters on the whole document, so it removes event-written rows only
  (`book_handler.go:52`, with the constant timestamp `"43"` of line 76). The model does the same.

**Health monitor.** Lookups and inserts of any number of processors interleave with a pass that lists the
table entry by entry and writes whole records back. Nothing stored is ever made up and no key is lost.

A punctual service, one whose last handled heartbeat is at most 30 seconds old all along, can still be called
stale: a pass can put an older record back over a newer heartbeat, and a later pass then goes by the older
time. `FalseAlarmCanHappen` is such a run from the empty table. What holds is this, in any state: a service
stored as healthy stays healthy in every punctual continuation if and only if its stored time is not before its
last handled heartbeat's, every copy of it that can still be inserted in time is healthy, and the pass under way
leaves its entry alone. The one other case is that every processor holds a heartbeat of it that is overdue
already, and the pass under way puts a healthy entry back that is not behind (`Mended`).

No punctual continuation with its heartbeats one by one loses any of them if and only if it is stored as healthy,
the pass under way leaves its entry alone, and the stored time is not before the last handled heartbeat's or the
one in flight; or else no more of it can be handled in time and the pass under way changes no more than its
status. That is for states in which at most one copy of it is in flight, a current one.

In the code a falsy `serviceId` leaves the record's own id at the default's `:unknown`; the model keeps that, and
"the id matches the key" is stated for ids that are not null or false. The literal `false` for stats or data
counts as absent, like null.

**Avatars.** In every interleaving a lookup has exactly one possible answer: the upload the user began last, with
what has been written of it; or none, after a removal, an upload whose file could not be opened, or one whose
file name has no extension.

**Credentials.** In every interleaving of statements a login succeeds exactly for the last password set.

**Backoff.** The Go delay equals the capped power of two for attempts 0 to 33, and after that up to 62 only for
37, 41, 42, 45, 47, 50, 51 and 53; the other attempts there do not wait at all.

## Assumptions

* One broker queue, delivered in order of arrival; both goroutines use one collection; each single
  operation on the collection is atomic; after a failed bulk write no more of its operations run.
* Publishing, binding and handling an event do not fail, and the consumer's channel stays open.
* User ids contain no dot, slash or glob character; unlinking follows POSIX; one event loop.
* The password hash accepts the hashed password and no other.
* Health monitor times are whole seconds, the unit in which the code takes differences.

## Model

| member | source | states |
|---|---|---|
| `Books.BookService.CreateBook` | solution/services/book-service/app/route_handlers.py:11-22 | a new book gets an id never used before, one row is added, and exactly its created event is published; without the role nothing changes |
| `Books.BookService.DeleteBook` | solution/services/book-service/app/route_handlers.py:30-42 | exactly the given book stops being live, no row goes away, its deleted event is published; unknown ids and missing role change nothing |
| `Books.BookService.GetAllBooks` | solution/services/book-service/app/route_handlers.py:24-28 | the live books, each once, and no deleted one |
| `Books.BookService.InternalSnapshot` | solution/services/book-service/app/route_handlers.py:44-48 | every row once, deleted ones with their mark |
| `Replica.BookCollection.InsertOne` | solution/services/review-service/app/db/migrations/000004_books-unique-book-id.up.mjs:3-10 | an insert succeeds only for a book id without a row, so there is at most one row per id |
| `Replica.BookCollection.Execute` | solution/services/review-service/app/workers/book_sync_worker.go:112-126 | each kind of operation keeps one row per id and changes only that book's row; says when it upserted or deleted |
| `Replica.HandleBookCreated` | solution/services/review-service/app/pubsub/book_handler.go:21-40 | an event row is inserted unless the book has a row; a body that does not parse changes nothing |
| `Replica.HandleBookDeleted` | solution/services/review-service/app/pubsub/book_handler.go:42-62 | the row goes only when it is an event row; a body that does not parse changes nothing |
| `Replica.Unmarshal` | solution/services/review-service/app/pubsub/book_handler.go:64-80 | a document results exactly when the body parses, with its id and the constant timestamp |
| `Replica.ConsumeBooks` | solution/services/review-service/app/pubsub/book_consumer.go:86-97 | a row with a date stays; otherwise the last message about a book with one of the two keys decides, an event row after a creation and none after a deletion; a book no message is about keeps what it has |
| `Replica.Projection` | solution/services/review-service/app/pubsub/book_handler.go:21-62 | replaying any log leaves each book as replaying that book's own operations alone |
| `Replica.SwapAndRepeat` | solution/services/review-service/app/pubsub/book_handler.go:21-62 | anywhere in a log, operations on different books commute and an immediate repetition changes nothing |
| `BookSync.ConvertToWriteModels` | solution/services/review-service/app/workers/book_sync_worker.go:109-129 | a delete by id for each deleted book and an insert-only upsert for each live one, in snapshot order |
| `BookSync.BulkWriteUnordered` | solution/services/review-service/app/workers/book_sync_worker.go:104-106 | whichever pending operation runs next, the collection is the replay of what ran, with the reported counts; an interrupted write has run only some of the operations |
| `BookSync.BulkWriteOrderIndependent` | solution/services/review-service/app/workers/book_sync_worker.go:95-129 | every order of a snapshot's operations gives the same rows, those of the set-level description |
| `BookSync.CompleteWrite` | solution/services/review-service/app/workers/book_sync_worker.go:104-106 | in every order: same contents, same counts, and rows after = rows before + upserted - deleted |
| `BookSync.Heals` | solution/services/review-service/app/workers/book_sync_worker.go:95-129 | after any operations on known books, such as a half-applied earlier snapshot, a complete application in any order makes the ids exactly the live ones; a second one, in any order, changes nothing |
| `BookSync.SaveBooksSnapshot` | solution/services/review-service/app/workers/book_sync_worker.go:95-107 | success gives the set-level rows and true counts, and as many more documents as were upserted less those deleted; a failure has brought only live books with the sync's date and taken only deleted ones, every other row is as before; an empty snapshot succeeds without the database |
| `BookSync.StartBookSync` | solution/services/review-service/app/workers/book_sync_worker.go:22-49 | stops at the first attempt that can succeed, waits the backoff delay before each, and then the ids are exactly that snapshot's live ones, whatever failed attempts left; a row no attempt deletes stays as it was, and every other row is one an attempt brought |
| `GoRetry.DelayIsCappedExactlyWhen` | solution/services/review-service/app/common/retry.go:8-16 | in wrapping 64-bit nanoseconds, exactly which attempts up to 62 wait min(2^n, 600) seconds; all the others do not wait |
| `GoRetry.DelayGrows` | solution/services/review-service/app/common/retry.go:8-16 | positive and never decreasing up to attempt 33, negative at 34 |
| `GoRetry.TotalWaitClosed` | solution/services/review-service/app/common/retry.go:8-16 | the first n waits total 2^n - 1 seconds up to 10, and 1023 + 600(n - 10) up to 34 |
| `GoRetry.WrapsToZero` | solution/services/review-service/app/common/retry.go:10-15 | attempts 55 to 62 give a delay of exactly zero |
| `Replication.SoundAlways` | solution/services/book-service/app/route_handlers.py:17-48 | in every reachable state all in flight names committed books with true deleted marks, only committed books have rows, no book goes away and no deletion is undone |
| `Replication.MissingExactly` | solution/services/review-service/app/workers/book_sync_worker.go:22-49 | exactly which live books have no row when everything has settled |
| `Replication.Completeness` | solution/services/review-service/app/pubsub/book_consumer.go:66-97 | with both keys bound before the finished snapshot was read, every live book has a row |
| `Replication.PastMeans` | solution/services/review-service/app/pubsub/book_consumer.go:66-97 | every mark the results use is what steps of the run did: events missed, events between the bindings, deletions queued, upserts that wrote, a creation queued with no deletion queued after it, a creation delivered after the last snapshot's delete |
| `Replication.DoneMeans` | solution/services/review-service/app/workers/book_sync_worker.go:104-126 | an entry of the snapshot is off the sync's list exactly when its operation has run since that snapshot was read |
| `Replication.SnapshotMeans` | solution/services/book-service/app/route_handlers.py:44-48 | the finished snapshot is what the source held at the run's last snapshot read |
| `Staleness.StaleExactly` | solution/services/review-service/app/pubsub/book_handler.go:42-62 | exactly which deleted books keep a row when everything has settled, for every order of publications, bindings and syncs |
| `Staleness.StaleRowsAre` | solution/services/review-service/app/pubsub/book_handler.go:42-62 | a stale row has a date exactly when the sync wrote it; an event row whose creation is not the last event queued is left from before the start, and its deletion was published before the second binding |
| `Staleness.StaleOnceBound` | solution/services/review-service/app/pubsub/book_consumer.go:66-97 | with both keys bound before the snapshot only the sync's rows and the creations queued last are stale |
| `Staleness.UpsertedExactly` | solution/services/review-service/app/workers/book_sync_worker.go:119-126 | the sync wrote a book's row exactly when it had at the start, or wrote the entry before the created event was delivered or after a deletion event took the row away again |
| `Staleness.StaleInOrder` | solution/services/review-service/app/pubsub/book_handler.go:42-62 | with publications in order as well, a deletion that reached the queue leaves no event row |
| `Staleness.EventRowsInOrder` | solution/services/review-service/app/pubsub/book_consumer.go:66-74 | then a stale event row had its creation published between the two bindings and no deletion queued |
| `Staleness.NoEventRowStale` | solution/services/review-service/app/pubsub/book_consumer.go:66-74 | with no created event between the two bindings no event row is stale, and a stale row's deletion was committed after the snapshot read |
| `Staleness.ConvergesExactly` | solution/services/review-service/app/workers/book_sync_worker.go:22-49 | the replica equals the live books exactly when no live book was missed and no deleted one is stale, in every settled run |
| `Staleness.LiveBookCanBeMissing` | solution/services/review-service/app/workers/book_sync_worker.go:22-49 | a settled run without the bindings that leaves a live book without a row |
| `Staleness.EventRowCanBeStale` | solution/services/review-service/app/pubsub/book_consumer.go:66-74 | a run, ordered and bound before the snapshot, that ends with a stale event row |
| `Staleness.SyncRowCanBeStale` | solution/services/review-service/app/pubsub/book_handler.go:52 | a run that ends with a sync-written row of a deleted book |
| `Staleness.OrderIsNeeded` | solution/services/book-service/app/route_handlers.py:19-21 | a run in which a deletion published before the creation leaves an event row |
| `Staleness.InheritedRowCanBeStale` | solution/services/review-service/app/pubsub/book_consumer.go:66-74 | a run that keeps an event row of an earlier life for a book whose deletion was published before the bindings |
| `Correspondence.RunIsReplay` | solution/services/review-service/app/pubsub/book_handler.go:21-62 | the rows after any run are the replay of its operations, book by book |
| `Correspondence.CreateBookSteps` | solution/services/book-service/app/route_handlers.py:17-22 | an uninterrupted create is commit, refresh and publish, and leaves what the handler promises |
| `Correspondence.DeleteBookSteps` | solution/services/book-service/app/route_handlers.py:35-42 | an uninterrupted delete is commit and publish, and leaves what the handler promises |
| `Correspondence.UninterruptedSync` | solution/services/review-service/app/workers/book_sync_worker.go:35-46 | a sync nothing interrupts, in any write order, ends with exactly the source's live books |
| `Correspondence.InterruptedSync` | solution/services/review-service/app/workers/book_sync_worker.go:35-46 | a bulk write that fails after any part of the snapshot, in any order, leaves that part written and the worker waiting |
| `Health.HeartbeatTable.HandleMessage` | solution/services/health-monitor-service/app/lib/health_monitor_service/pubsub/health_subscriber.ex:31-56 | only the sender's record changes: it gets the message's time, its stats, data and id unless they are null or false, and keeps its status; undecodable messages change nothing |
| `Health.HeartbeatTable.RecalculateAll` | solution/services/health-monitor-service/app/lib/health_monitor_service/workers/StatusUpdater.ex:27-59 | the pass that writes only changed entries equals mapping every visited entry to its new status; it crashes exactly when some entry has no time |
| `Health.PassOverMeans` | solution/services/health-monitor-service/app/lib/health_monitor_service/workers/StatusUpdater.ex:33-56 | a visited entry becomes healthy up to 30 seconds, stale up to 60, offline beyond, and nothing else of it changes |
| `Health.ReplayFacts` | solution/services/health-monitor-service/app/lib/health_monitor_service/pubsub/health_subscriber.ex:40-51 | everything but the status of a record comes from that service's own heartbeats; other services and passes have no effect |
| `Health.LastValuesWin` | solution/services/health-monitor-service/app/lib/health_monitor_service/pubsub/health_subscriber.ex:40-51 | after any log: the last heartbeat's time, and the stats and data of the last heartbeats that had some |
| `Health.BatchesMayBePremerged` | solution/services/health-monitor-service/app/lib/health_monitor_service/pubsub/health_subscriber.ex:50 | merging is associative and a batch may be folded into one heartbeat first |
| `Health.PassesAreLast` | solution/services/health-monitor-service/app/lib/health_monitor_service/workers/StatusUpdater.ex:27-59 | with no heartbeat between, only the last pass matters |
| `Health.StatusOnlyDegrades` | solution/services/health-monitor-service/app/lib/health_monitor_service/workers/StatusUpdater.ex:35-39 | across passes a silent service's status only moves healthy, stale, offline |
| `Health.DetectionLatency` | solution/services/health-monitor-service/app/lib/health_monitor_service/workers/StatusUpdater.ex:28-39 | offline exactly from 61 s on, stale exactly from 31 s, and noticed within one period of 61 s |
| `HealthMachine.NothingMadeUp` | solution/services/health-monitor-service/app/lib/health_monitor_service/pubsub/health_subscriber.ex:31-56 | in every interleaving all stored and in-flight fields were sent by that service or are defaults, statuses are computed from sent times, no key is lost |
| `HealthMachine.NothingMadeUpFromStart` | solution/services/health-monitor-service/app/lib/health_monitor_service/pubsub/health_subscriber.ex:31-56 | the same of every run from the empty table |
| `FalseAlarms.NoFalseAlarmExactly` | solution/services/health-monitor-service/app/lib/health_monitor_service/workers/StatusUpdater.ex:27-59 | whatever is in flight, exactly when a service stored as healthy stays healthy in every punctual continuation |
| `FalseAlarms.NoFalseAlarmFromStart` | solution/services/health-monitor-service/app/lib/health_monitor_service/workers/StatusUpdater.ex:27-59 | the same in every state reached from the empty table |
| `FalseAlarms.SteadyStays` | solution/services/health-monitor-service/app/lib/health_monitor_service/workers/StatusUpdater.ex:41-57 | under that condition no step of a pass changes its record |
| `LostHeartbeats.FalseAlarmCanHappen` | solution/services/health-monitor-service/app/lib/health_monitor_service/workers/StatusUpdater.ex:27-59 | a run from the empty table after which a punctual service stored as healthy, with nothing in flight, is called late |
| `LostHeartbeats.NothingLost` | solution/services/health-monitor-service/app/lib/health_monitor_service/pubsub/health_subscriber.ex:46-51 | a steady service's record is its heartbeats merged one by one, in every interleaving |
| `LostHeartbeats.NothingLostExactly` | solution/services/health-monitor-service/app/lib/health_monitor_service/workers/StatusUpdater.ex:30-56 | with a pass under way and a current copy in flight, exactly when no punctual continuation with heartbeats one by one loses any of them |
| `LostHeartbeats.NothingLostAtRest` | solution/services/health-monitor-service/app/lib/health_monitor_service/workers/StatusUpdater.ex:30-56 | with neither, exactly when the service is stored as healthy with a time not before its last handled heartbeat's |
| `LostHeartbeats.RewriteLoses` | solution/services/health-monitor-service/app/lib/health_monitor_service/workers/StatusUpdater.ex:41-57 | whatever status is stored, if a pass begun now would rewrite it then a heartbeat can be lost |
| `LostHeartbeats.HeartbeatCanBeLost` | solution/services/health-monitor-service/app/lib/health_monitor_service/workers/StatusUpdater.ex:41-57 | a run from the empty table in which a pass puts an older record back over a newer heartbeat |
| `HealthCorrespondence.HandleAlone` | solution/services/health-monitor-service/app/lib/health_monitor_service/pubsub/health_subscriber.ex:46-51 | a lookup and insert with nothing between is what the handler does, whatever else is in flight |
| `HealthCorrespondence.PassAlone` | solution/services/health-monitor-service/app/lib/health_monitor_service/workers/StatusUpdater.ex:27-59 | a pass with nothing between, listing and writing in any order, is what the sequential pass does, ending at an entry without a time or with all done |
| `Avatars.Extension` | solution/services/media-service/app/route_handlers.py:17 | empty, or a dot followed by no further dot or separator, at the end of the file name |
| `Avatars.ExtensionOf` | solution/services/media-service/app/route_handlers.py:17 | what follows the last dot, if something but dots comes before it in the last component |
| `Avatars.NoExtension` | solution/services/media-service/app/route_handlers.py:17 | a last path component without a dot has no extension, whatever directories come before it |
| `Avatars.AvatarService.RemoveAvatar` | solution/services/media-service/app/route_handlers.py:36-46 | unlinks the first match and nothing else; a refused removal changes nothing |
| `Avatars.AvatarService.BeginUpload` | solution/services/media-service/app/route_handlers.py:13-22 | up to the read: old file unlinked, new one created or truncated, request suspended; and what each failure leaves |
| `Avatars.AvatarService.EndUpload` | solution/services/media-service/app/route_handlers.py:22-26 | the body is written over the start of the file that was opened, wherever it is linked by then; a failed read or write leaves what had been written |
| `Avatars.AvatarService.GetAvatar` | solution/services/media-service/app/route_handlers.py:28-34 | the first file matching the pattern, or none |
| `Avatars.AtMostOneFile` | solution/services/media-service/app/route_handlers.py:13-46 | between any two steps of any interleaving each user has at most one matching file, so removing the first removes all |
| `Avatars.OthersUntouched` | solution/services/media-service/app/route_handlers.py:13-46 | no step changes a name or the contents of another user's file |
| `Avatars.LookupShowsLastBegun` | solution/services/media-service/app/route_handlers.py:13-34 | a lookup has exactly one answer, that of the user's own history with no directory around |
| `Avatars.LastWriterVisible` | solution/services/media-service/app/route_handlers.py:13-34 | the contents of the upload begun last are returned, even when earlier uploads finish after it |
| `Avatars.OpenedLater` | solution/services/media-service/app/route_handlers.py:28-34 | a response that opens its file later still opens the upload begun last, unless the user begins an upload or removal in between |
| `Credentials.NewUser` | solution/services/user-service/app/route-handlers.js:25-27 | exactly which registrations the library passes on, with which role |
| `Credentials.Patched` | solution/services/user-service/app/route-handlers.js:58-60 | a profile update keeps email and password and is refused exactly for a null, an unknown role or too long a name |
| `Credentials.ExecuteAccounts` | solution/services/user-service/app/route-handlers.js:23-127 | each statement changes the map from email to password by its effect alone |
| `Credentials.VerifiesLastPassword` | solution/services/user-service/app/route-handlers.js:9-127 | in every interleaving a login succeeds exactly when the account exists and the password is the last one set |
| `Credentials.LateStatementHarmless` | solution/services/user-service/app/route-handlers.js:83-127 | a statement waiting when its account is gone changes nothing, even after the email is registered again |
| `Credentials.ServedAlone` | solution/services/user-service/app/route-handlers.js:23-127 | the steps of a request with nothing between give the table and reply the handlers promise |
| `Credentials.UserService.VerifyCredentials` | solution/services/user-service/app/route-handlers.js:9-21 | accepts exactly the account's current password |
| `Credentials.UserService.RegisterUser` | solution/services/user-service/app/route-handlers.js:23-32 | succeeds exactly for a complete request with a new email that fits its columns, and adds that account alone, with the role given or "user" |
| `Credentials.UserService.UpdateProfile` | solution/services/user-service/app/route-handlers.js:53-82 | both profile updates set the given name and role and keep what is missing, email and password; refused exactly for a null, an unknown role or too long a name that is not the current one |
| `Credentials.UserService.PasswordChangeMine` | solution/services/user-service/app/route-handlers.js:83-102 | succeeds exactly when the current password is right and the new one is repeated, and sets it |
| `Credentials.UserService.PasswordReset` | solution/services/user-service/app/route-handlers.js:104-118 | sets "1234" for the one account |
| `Credentials.UserService.DeleteUser` | solution/services/user-service/app/route-handlers.js:120-127 | removes the one account |
| `DeclareBackoff.DelayShape` | solution/services/health-monitor-service/app/lib/health_monitor_service/pubsub/health_subscriber.ex:112-115 | 1000 * 2^k up to k = 6, the maximum exactly from there, never decreasing |
| `DeclareBackoff.WaitsBetweenResets` | solution/services/health-monitor-service/app/lib/health_monitor_service/pubsub/health_subscriber.ex:63-115 | between resets waits never shorten, double six times at most, then stay at the maximum |
| `DeclareBackoff.HealthSubscriber.EnsureExchange` | solution/services/health-monitor-service/app/lib/health_monitor_service/pubsub/health_subscriber.ex:63-80 | one wait for each refusal, by the counter, which a declared exchange resets to 0 and a raised error leaves at the failures so far |
| `DeclareBackoff.HealthSubscriber.EnsureQueue` | solution/services/health-monitor-service/app/lib/health_monitor_service/pubsub/health_subscriber.ex:82-98 | one wait for each refusal, by the counter, which only ever grows here |
| `DeclareBackoff.HealthSubscriber.AfterConnect` | solution/services/health-monitor-service/app/lib/health_monitor_service/pubsub/health_subscriber.ex:58-61 | the exchange, then the queue on the counter the exchange left, even when declaring the exchange raised |

## Left out

- Failed publishes, failed binds, consumer reconnection and lost connections: hypotheses above.
- Operations of a failed bulk write that the database would still run after the client gave up.
- Books' titles and authors beyond the source: the replica stores ids only.
- Token issue and verification, the gateway, the Angular client, reviews, heartbeat publishers, logging.
- Go attempts above 62: the conversion from floating point is then the platform's, kept as a parameter.
- Elixir's floating-point overflow of the delay for counters above 1014.
- `Avatars.AvatarService.GetAvatar`: finds the name; what the response opens later is in `Avatars.OpenedLater`, and the
  error when the user has removed the file by then is left out.
- `Credentials.NewUser`: JSON numbers and booleans have no representation; the library stores a number given as a name.
- `Credentials.Patched`: the same, for the name of a profile update.
- `Credentials.UserService.RegisterUser`: the same, for its name.
- `Credentials.UserService.UpdateProfile`: the same, for its name.
- `Credentials.UserService.PasswordChangeMine`: the code compares the new password and its repeat loosely, so a JSON
  number or list may pass as the repeat of a text; here both are texts, null or missing.
- `Credentials.UserService.VerifyCredentials`: takes an email and a password that are present strings; a body without them makes the library throw.
- A pass of the health monitor that raises ends there; the supervisor's restart shows only as later passes.
- `LostHeartbeats.NothingLostExactly`: it starts from at most one copy of the service in flight, and a current one;
  what stale copies in flight lose is not counted.
- `Health.HeartbeatTable.RecalculateAll`: a service id that is a JSON object or list makes the log line of a changed
  status raise, so the pass would crash there too; service ids are taken to be printable.
- Sub-second parts of timestamps, which the code drops before it subtracts.
- User ids with dots or glob characters, for which files of different users can match one pattern.
