/** The startup sync of the review service: a full snapshot turned into one unordered bulk write,
    retried from a fresh snapshot until one succeeds. */
module BookSync {
  import opened Basics
  import opened Books
  import opened Replica
  import GoRetry

  function OpFor(item: BookDto, millis: int): Op {
    if item.isDeleted then SyncDelete(item.id) else Upsert(item.id, millis)
  }

  function OpsFor(items: seq<BookDto>, millis: int): seq<Op> {
    if items == [] then [] else [OpFor(items[0], millis)] + OpsFor(items[1..], millis)
  }

  function Ids(items: seq<BookDto>): set<int> {
    set i | 0 <= i < |items| :: items[i].id
  }

  function Live(items: seq<BookDto>): set<int> {
    set i | 0 <= i < |items| && !items[i].isDeleted :: items[i].id
  }

  function Dead(items: seq<BookDto>): set<int> {
    set i | 0 <= i < |items| && items[i].isDeleted :: items[i].id
  }

  ghost predicate DistinctIds(items: seq<BookDto>) {
    forall i, j :: 0 <= i < j < |items| ==> items[i].id != items[j].id
  }

  /** What a snapshot should make of the collection, with no order in it: dead books go, live books
      that are missing come in with the sync's date, every other row stays as it is. */
  function Synced(rows: Rows, live: set<int>, dead: set<int>, millis: int): Rows {
    map id | id in (rows.Keys + live) - dead :: if id in rows then rows[id] else Date(millis)
  }

  // ---- Order independence ---------------------------------------------------------------------

  lemma {:induction false} OpsOfMultiset(ops: seq<Op>, id: int, x: Op)
    ensures multiset(OpsOf(ops, id))[x] == if x.id == id then multiset(ops)[x] else 0
    decreases |ops|
  {
    if ops != [] {
      OpsOfMultiset(ops[1..], id, x);
      assert ops == [ops[0]] + ops[1..];
    }
  }

  lemma {:induction false} OpsOfGenerated(items: seq<BookDto>, millis: int, id: int)
    requires DistinctIds(items)
    ensures OpsOf(OpsFor(items, millis), id)
         == if id in Live(items) then [Upsert(id, millis)] else if id in Dead(items) then [SyncDelete(id)] else []
    ensures Live(items) !! Dead(items) && Live(items) + Dead(items) == Ids(items)
    decreases |items|
  {
    if items == [] {
    } else {
      var rest := items[1..];
      OpsOfGenerated(rest, millis, id);
      assert OpsFor(items, millis)[1..] == OpsFor(rest, millis);
      SplitFirst(items);
    }
  }

  lemma SplitFirst(items: seq<BookDto>)
    requires items != []
    ensures Ids(items) == {items[0].id} + Ids(items[1..])
    ensures Live(items) == (if items[0].isDeleted then {} else {items[0].id}) + Live(items[1..])
    ensures Dead(items) == (if items[0].isDeleted then {items[0].id} else {}) + Dead(items[1..])
    ensures DistinctIds(items) ==> items[0].id !in Ids(items[1..]) && DistinctIds(items[1..])
  {
    assert items == [items[0]] + items[1..];
    assert forall i :: 0 < i < |items| ==> items[i] == items[1..][i - 1];
  }

  lemma SingletonOf<T>(a: seq<T>, b: seq<T>)
    requires multiset(a) == multiset(b) && |b| <= 1
    ensures a == b
  {
    assert |a| == |multiset(a)| == |multiset(b)| == |b|;
    if |b| == 1 {
      assert a == [a[0]] && b == [b[0]];
      assert a[0] in multiset(b);
    }
  }

  /** Whatever order the database executes a snapshot's operations in, the collection becomes the
      one the set-level description gives. */
  lemma BulkWriteOrderIndependent(rows: Rows, items: seq<BookDto>, millis: int, order: seq<Op>)
    requires DistinctIds(items)
    requires multiset(order) == multiset(OpsFor(items, millis))
    ensures Replay(rows, order) == Synced(rows, Live(items), Dead(items), millis)
  {
    forall id ensures Row(Replay(rows, order), id) == Row(Synced(rows, Live(items), Dead(items), millis), id) {
      OneBookOfBulkWrite(rows, items, millis, order, id);
    }
    RowsEqual(Replay(rows, order), Synced(rows, Live(items), Dead(items), millis));
  }

  lemma SameOpsOfBook(a: seq<Op>, b: seq<Op>, id: int)
    requires multiset(a) == multiset(b)
    ensures multiset(OpsOf(a, id)) == multiset(OpsOf(b, id))
    ensures |OpsOf(a, id)| == |OpsOf(b, id)|
  {
    forall x ensures multiset(OpsOf(a, id))[x] == multiset(OpsOf(b, id))[x] {
      OpsOfMultiset(a, id, x);
      OpsOfMultiset(b, id, x);
    }
    assert multiset(OpsOf(a, id)) == multiset(OpsOf(b, id));
    assert |multiset(OpsOf(a, id))| == |multiset(OpsOf(b, id))|;
  }

  lemma OneBookOfBulkWrite(rows: Rows, items: seq<BookDto>, millis: int, order: seq<Op>, id: int)
    requires DistinctIds(items)
    requires multiset(order) == multiset(OpsFor(items, millis))
    ensures Row(Replay(rows, order), id) == Row(Synced(rows, Live(items), Dead(items), millis), id)
  {
    OpsOfGenerated(items, millis, id);
    SameOpsOfBook(order, OpsFor(items, millis), id);
    SingletonOf(OpsOf(order, id), OpsOf(OpsFor(items, millis), id));
    Projection(rows, order, id);
    RowAfterOne(Row(rows, id), Upsert(id, millis));
    RowAfterOne(Row(rows, id), SyncDelete(id));
  }

  lemma RowAfterOne(row: Option<Stamp>, op: Op)
    ensures op.Upsert? ==> RowAfter(row, [op]) == if row.Some? then row else Some(Date(op.millis))
    ensures op.SyncDelete? ==> RowAfter(row, [op]) == None
  {
  }

  // ---- Row counts -----------------------------------------------------------------------------

  ghost predicate OneOpPerBook(ops: seq<Op>) {
    forall id :: |OpsOf(ops, id)| <= 1
  }

  function UpsertIds(ops: seq<Op>): set<int> {
    set op | op in ops && op.Upsert? :: op.id
  }

  function DeleteIds(ops: seq<Op>): set<int> {
    set op | op in ops && op.SyncDelete? :: op.id
  }

  lemma {:induction false} GeneratedIds(items: seq<BookDto>, millis: int)
    ensures UpsertIds(OpsFor(items, millis)) == Live(items)
    ensures DeleteIds(OpsFor(items, millis)) == Dead(items)
    ensures forall op :: op in OpsFor(items, millis) ==> op.id in Ids(items) && (op.Upsert? || op.SyncDelete?)
    decreases |items|
  {
    if items != [] {
      GeneratedIds(items[1..], millis);
      SplitFirst(items);
      var ops := OpsFor(items, millis);
      assert ops == [OpFor(items[0], millis)] + OpsFor(items[1..], millis);
      assert forall op :: op in ops <==> op == OpFor(items[0], millis) || op in OpsFor(items[1..], millis);
    }
  }

  lemma {:induction false} OpInItsBook(ops: seq<Op>, op: Op)
    requires op in ops
    ensures op in OpsOf(ops, op.id)
    decreases |ops|
  {
    if op != ops[0] {
      OpInItsBook(ops[1..], op);
    }
  }

  /** The upserts that insert, and the deletes that find a row, as the operations run. */
  function CountUpserted(rows: Rows, order: seq<Op>): nat
    decreases |order|
  {
    if order == [] then 0
    else (if order[0].Upsert? && order[0].id !in rows then 1 else 0)
         + CountUpserted(ApplyOp(rows, order[0]), order[1..])
  }

  function CountDeleted(rows: Rows, order: seq<Op>): nat
    decreases |order|
  {
    if order == [] then 0
    else (if order[0].SyncDelete? && order[0].id in rows then 1 else 0)
         + CountDeleted(ApplyOp(rows, order[0]), order[1..])
  }

  lemma {:induction false} CountsSnoc(rows: Rows, order: seq<Op>, op: Op)
    ensures CountUpserted(rows, order + [op])
         == CountUpserted(rows, order) + if op.Upsert? && op.id !in Replay(rows, order) then 1 else 0
    ensures CountDeleted(rows, order + [op])
         == CountDeleted(rows, order) + if op.SyncDelete? && op.id in Replay(rows, order) then 1 else 0
    decreases |order|
  {
    if order == [] {
      assert [op][1..] == [];
    } else {
      assert (order + [op])[1..] == order[1..] + [op];
      CountsSnoc(ApplyOp(rows, order[0]), order[1..], op);
    }
  }

  lemma RestOneOpPerBook(order: seq<Op>)
    requires order != [] && OneOpPerBook(order)
    ensures OneOpPerBook(order[1..])
    ensures order[0].id !in UpsertIds(order[1..]) + DeleteIds(order[1..])
  {
    var rest := order[1..];
    forall id ensures |OpsOf(rest, id)| <= 1 {
      assert |OpsOf(order, id)| <= 1;
    }
    forall op | op in rest ensures op.id != order[0].id {
      OpInItsBook(rest, op);
      assert |OpsOf(order, order[0].id)| <= 1;
    }
  }

  lemma IdsOfFirst(x: Op, rest: seq<Op>)
    ensures UpsertIds([x] + rest) == UpsertIds(rest) + if x.Upsert? then {x.id} else {}
    ensures DeleteIds([x] + rest) == DeleteIds(rest) + if x.SyncDelete? then {x.id} else {}
  {
  }

  lemma {:induction false} CountsAnyOrder(rows: Rows, order: seq<Op>)
    requires OneOpPerBook(order)
    ensures CountUpserted(rows, order) == |UpsertIds(order) - rows.Keys|
    ensures CountDeleted(rows, order) == |DeleteIds(order) * rows.Keys|
    decreases |order|
  {
    if order == [] {
      NoIds(rows.Keys);
    } else {
      RestOneOpPerBook(order);
      CountsAnyOrder(ApplyOp(rows, order[0]), order[1..]);
      CountsFirst(rows, order[0], order[1..]);
      assert order == [order[0]] + order[1..];
    }
  }

  lemma NoIds(keys: set<int>)
    ensures |UpsertIds([]) - keys| == 0 && |DeleteIds([]) * keys| == 0
  {
  }

  lemma CountsFirst(rows: Rows, x: Op, rest: seq<Op>)
    requires x.id !in UpsertIds(rest) && x.id !in DeleteIds(rest)
    ensures |UpsertIds([x] + rest) - rows.Keys|
         == |UpsertIds(rest) - ApplyOp(rows, x).Keys| + if x.Upsert? && x.id !in rows then 1 else 0
    ensures |DeleteIds([x] + rest) * rows.Keys|
         == |DeleteIds(rest) * ApplyOp(rows, x).Keys| + if x.SyncDelete? && x.id in rows then 1 else 0
  {
    IdsOfFirst(x, rest);
    KeysAfter(rows, x);
    CountFirst(UpsertIds([x] + rest), UpsertIds(rest), x.id, rows.Keys, ApplyOp(rows, x).Keys, x.Upsert?);
    CountFirst(DeleteIds([x] + rest), DeleteIds(rest), x.id, rows.Keys, ApplyOp(rows, x).Keys, x.SyncDelete?);
  }

  lemma KeysAfter(rows: Rows, x: Op)
    ensures ApplyOp(rows, x).Keys == rows.Keys || ApplyOp(rows, x).Keys == rows.Keys + {x.id}
         || ApplyOp(rows, x).Keys == rows.Keys - {x.id}
  {
  }

  lemma CountFirst(all: set<int>, rest: set<int>, id: int, keys: set<int>, next: set<int>, counts: bool)
    requires id !in rest && all == rest + if counts then {id} else {}
    requires next == keys || next == keys + {id} || next == keys - {id}
    ensures |all - keys| == |rest - next| + if counts && id !in keys then 1 else 0
    ensures |all * keys| == |rest * next| + if counts && id in keys then 1 else 0
  {
    assert rest - next == rest - keys && rest * next == rest * keys;
    if !counts {
      assert all == rest;
    } else if id in keys {
      assert all - keys == rest - keys;
      assert all * keys == rest * keys + {id};
    } else {
      assert all - keys == rest - keys + {id};
      assert all * keys == rest * keys;
    }
  }

  lemma SetCount(keys: set<int>, live: set<int>, dead: set<int>)
    requires live !! dead
    ensures |(keys + live) - dead| == |keys| + |live - keys| - |dead * keys|
  {
    var kept, added := keys - dead * keys, live - keys;
    assert keys == kept + dead * keys && kept !! dead * keys;
    assert (keys + live) - dead == kept + added && kept !! added;
  }

  lemma RowCount(rows: Rows, live: set<int>, dead: set<int>, millis: int)
    requires live !! dead
    ensures |Synced(rows, live, dead, millis)| == |rows| + |live - rows.Keys| - |dead * rows.Keys|
  {
    SetCount(rows.Keys, live, dead);
    assert Synced(rows, live, dead, millis).Keys == (rows.Keys + live) - dead;
    assert |Synced(rows, live, dead, millis)| == |Synced(rows, live, dead, millis).Keys| && |rows| == |rows.Keys|;
  }

  // ---- The code -------------------------------------------------------------------------------

  /** `convertToMongoWriteModel`; an empty snapshot gives no models at all. */
  method ConvertToWriteModels(items: seq<BookDto>, millis: int) returns (models: seq<Op>)
    ensures models == OpsFor(items, millis) && |models| == |items|
    ensures forall k :: 0 <= k < |items| ==>
              models[k] == if items[k].isDeleted then SyncDelete(items[k].id) else Upsert(items[k].id, millis)
  {
    models := [];
    for i := 0 to |items|
      invariant |models| == i
      invariant forall k :: 0 <= k < i ==>
                  models[k] == if items[k].isDeleted then SyncDelete(items[k].id) else Upsert(items[k].id, millis)
      invariant models + OpsFor(items[i..], millis) == OpsFor(items, millis)
    {
      assert items[i..][1..] == items[i + 1..];
      if items[i].isDeleted {
        models := models + [SyncDelete(items[i].id)];
      } else {
        models := models + [Upsert(items[i].id, millis)];
      }
    }
  }

  /** How the database answers one bulk write: all operations done, or an error after some of them. */
  datatype Write = Complete | Interrupted(executed: nat)

  /** An unordered bulk write: any pending operation may be the next to run. */
  method BulkWriteUnordered(books: BookCollection, models: seq<Op>, write: Write)
      returns (upserted: nat, deleted: nat, ghost order: seq<Op>)
    requires books.Valid()
    requires forall op :: op in models ==> op.Upsert? || op.SyncDelete?
    modifies books
    ensures books.Valid() && books.View() == Replay(old(books.View()), order)
    ensures multiset(order) <= multiset(models)
    ensures write.Complete? ==> multiset(order) == multiset(models)
    ensures write.Interrupted? ==> |order| == if write.executed < |models| then write.executed else |models|
    ensures upserted == CountUpserted(old(books.View()), order)
    ensures deleted == CountDeleted(old(books.View()), order)
  {
    upserted, deleted, order := 0, 0, [];
    var left := models;
    var executed := 0;
    ghost var rows := books.View();
    while left != [] && (write.Complete? || executed < write.executed)
      invariant books.Valid() && books.View() == Replay(rows, order)
      invariant multiset(order) + multiset(left) == multiset(models)
      invariant |order| == executed && |order| + |left| == |models|
      invariant write.Interrupted? ==> executed <= write.executed
      invariant upserted == CountUpserted(rows, order) && deleted == CountDeleted(rows, order)
      decreases |left|
    {
      assert 0 <= 0 < |left|;
      var i :| 0 <= i < |left|;
      var op := left[i];
      assert left == left[..i] + [op] + left[i + 1..];
      assert op in multiset(left) && op in multiset(models);
      var result := books.Execute(op);
      if result == Upserted {
        upserted := upserted + 1;
      }
      if result == WriteResult.Deleted {
        deleted := deleted + 1;
      }
      ReplaySnoc(rows, order, op);
      CountsSnoc(rows, order, op);
      order := order + [op];
      left := left[..i] + left[i + 1..];
      executed := executed + 1;
    }
  }

  // ---- Healing --------------------------------------------------------------------------------

  lemma {:induction false} ReplayWithin(rows: Rows, order: seq<Op>, ids: set<int>)
    requires rows.Keys <= ids && forall op :: op in order ==> op.id in ids
    ensures Replay(rows, order).Keys <= ids
    decreases |order|
  {
    if order != [] {
      assert order[0] in order;
      ReplayWithin(ApplyOp(rows, order[0]), order[1..], ids);
    }
  }

  /** The set-level description: over rows of the snapshot's books, once is enough. */
  lemma SyncedOnce(rows: Rows, items: seq<BookDto>, millis: int, again: int)
    requires DistinctIds(items) && rows.Keys <= Ids(items)
    ensures Synced(rows, Live(items), Dead(items), millis).Keys == Live(items)
    ensures Synced(Synced(rows, Live(items), Dead(items), millis), Live(items), Dead(items), again)
         == Synced(rows, Live(items), Dead(items), millis)
  {
    OpsOfGenerated(items, millis, 0);
  }

  /** Healing. Whatever operations on books of the snapshot came before, such as a half-applied earlier
      snapshot, one complete write of the snapshot, in any order, makes the ids exactly its live books,
      and a second one, at any later time and in any order, changes nothing. */
  lemma Heals(rows: Rows, before: seq<Op>, items: seq<BookDto>, millis: int, order: seq<Op>,
              again: int, repeat: seq<Op>)
    requires DistinctIds(items) && rows.Keys <= Ids(items)
    requires forall op :: op in before ==> op.id in Ids(items)
    requires multiset(order) == multiset(OpsFor(items, millis))
    requires multiset(repeat) == multiset(OpsFor(items, again))
    ensures Replay(rows, before + order).Keys == Live(items)
    ensures Replay(rows, before + order + repeat) == Replay(rows, before + order)
  {
    var left, healed := Replay(rows, before), Replay(rows, before + order);
    ReplayWithin(rows, before, Ids(items));
    ReplayConcat(rows, before, order);
    ReplayConcat(rows, before + order, repeat);
    BulkWriteOrderIndependent(left, items, millis, order);
    BulkWriteOrderIndependent(healed, items, again, repeat);
    SyncedOnce(left, items, millis, again);
  }

  // ---- The retry loop -------------------------------------------------------------------------

  /** `saveBooksSnapshot`: counts are reported, and `ok` is false when the bulk write failed. An empty
      snapshot never reaches the database. */
  method SaveBooksSnapshot(books: BookCollection, items: seq<BookDto>, millis: int, write: Write)
      returns (upserted: nat, deleted: nat, ok: bool)
    requires books.Valid() && DistinctIds(items)
    modifies books
    ensures books.Valid() && PartlyWritten(old(books.View()), books.View(), items, millis)
    ensures ok <==> items == [] || write.Complete?
    ensures ok ==>
              && books.View() == Synced(old(books.View()), Live(items), Dead(items), millis)
              && upserted == |Live(items) - old(books.View()).Keys|
              && deleted == |Dead(items) * old(books.View()).Keys|
              && |books.docs| == |old(books.docs)| + upserted - deleted
  {
    ghost var rows := books.View();
    ViewSize(books.docs);
    var models := ConvertToWriteModels(items, millis);
    GeneratedIds(items, millis);
    PartialWrite(rows, items, millis, []);
    if models == [] {
      CompleteWrite(rows, items, millis, []);
      return 0, 0, true;
    }
    ghost var order;
    upserted, deleted, order := BulkWriteUnordered(books, models, write);
    ok := write.Complete?;
    PartialWrite(rows, items, millis, order);
    if ok {
      CompleteWrite(rows, items, millis, order);
      ViewSize(books.docs);
    }
  }

  /** As far as a write of the snapshot may have got: every row is one there was, with its stamp, or a
      new one of a live book with the sync's date, and only rows of deleted books may be gone. */
  ghost predicate PartlyWritten(before: Rows, after: Rows, items: seq<BookDto>, millis: int) {
    && (forall id :: id in before && id !in Dead(items) ==> id in after)
    && (forall id :: id in after ==>
          if id in before then after[id] == before[id] else id in Live(items) && after[id] == Date(millis))
  }

  lemma PartOfOne(a: seq<Op>, op: Op)
    requires multiset(a) <= multiset{op}
    ensures a == [] || a == [op]
  {
    if a != [] {
      assert multiset{op} == multiset(a) + (multiset{op} - multiset(a));
      assert |multiset{op}| == |multiset(a)| + |multiset{op} - multiset(a)|;
      assert |a| == |multiset(a)|;
      assert a[0] in multiset(a);
      assert a == [a[0]];
    }
  }

  lemma OneBookOfPart(rows: Rows, items: seq<BookDto>, millis: int, order: seq<Op>, id: int)
    requires DistinctIds(items) && multiset(order) <= multiset(OpsFor(items, millis))
    ensures Row(Replay(rows, order), id) == Row(rows, id)
            || (id in Live(items) && Row(rows, id) == None && Row(Replay(rows, order), id) == Some(Date(millis)))
            || (id in Dead(items) && Row(Replay(rows, order), id) == None)
  {
    var ops := OpsFor(items, millis);
    OpsOfGenerated(items, millis, id);
    forall x ensures multiset(OpsOf(order, id))[x] <= multiset(OpsOf(ops, id))[x] {
      OpsOfMultiset(order, id, x);
      OpsOfMultiset(ops, id, x);
    }
    Projection(rows, order, id);
    if OpsOf(ops, id) == [] {
      assert forall x :: x in OpsOf(order, id) ==> x in multiset(OpsOf(order, id));
      assert OpsOf(order, id) == [];
    } else {
      PartOfOne(OpsOf(order, id), OpsOf(ops, id)[0]);
      RowAfterOne(Row(rows, id), OpsOf(ops, id)[0]);
    }
  }

  lemma PartialWrite(rows: Rows, items: seq<BookDto>, millis: int, order: seq<Op>)
    requires DistinctIds(items) && multiset(order) <= multiset(OpsFor(items, millis))
    ensures PartlyWritten(rows, Replay(rows, order), items, millis)
  {
    var after := Replay(rows, order);
    OpsOfGenerated(items, millis, 0);
    forall id ensures id in rows && id !in Dead(items) ==> id in after {
      OneBookOfPart(rows, items, millis, order, id);
      assert Row(after, id).Some? <==> id in after;
    }
    forall id | id in after
      ensures if id in rows then after[id] == rows[id] else id in Live(items) && after[id] == Date(millis)
    {
      OneBookOfPart(rows, items, millis, order, id);
    }
  }

  /** Contents, counts and size after a complete bulk write in any order. */
  lemma CompleteWrite(rows: Rows, items: seq<BookDto>, millis: int, order: seq<Op>)
    requires DistinctIds(items) && multiset(order) == multiset(OpsFor(items, millis))
    ensures Replay(rows, order) == Synced(rows, Live(items), Dead(items), millis)
    ensures CountUpserted(rows, order) == |Live(items) - rows.Keys|
    ensures CountDeleted(rows, order) == |Dead(items) * rows.Keys|
    ensures |Replay(rows, order)| == |rows| + CountUpserted(rows, order) - CountDeleted(rows, order)
  {
    BulkWriteOrderIndependent(rows, items, millis, order);
    forall id ensures |OpsOf(order, id)| <= 1 {
      OpsOfGenerated(items, millis, id);
      SameOpsOfBook(order, OpsFor(items, millis), id);
    }
    CountsAnyOrder(rows, order);
    SameMembers(order, OpsFor(items, millis));
    GeneratedIds(items, millis);
    OpsOfGenerated(items, millis, 0);
    RowCount(rows, Live(items), Dead(items), millis);
  }

  lemma SameMembers(a: seq<Op>, b: seq<Op>)
    requires multiset(a) == multiset(b)
    ensures UpsertIds(a) == UpsertIds(b) && DeleteIds(a) == DeleteIds(b)
  {
    forall op ensures op in a <==> op in b {
      assert op in a <==> op in multiset(a);
      assert op in b <==> op in multiset(b);
    }
  }

  /** What one turn of the retry loop meets: no token, no snapshot, or a snapshot and the database's
      answer to its bulk write. */
  datatype Attempt = NoToken | NoSnapshot | Snapshot(items: seq<BookDto>, millis: int, write: Write)

  predicate Succeeds(a: Attempt) {
    a.Snapshot? && (a.items == [] || a.write.Complete?)
  }

  function IdsOfAttempt(a: Attempt): set<int> {
    if a.Snapshot? then Ids(a.items) else {}
  }

  /** One turn of the loop, after its wait. */
  method TryOnce(books: BookCollection, attempt: Attempt) returns (ok: bool)
    requires books.Valid() && (attempt.Snapshot? ==> DistinctIds(attempt.items))
    modifies books
    ensures books.Valid()
    ensures ok <==> attempt.Snapshot? && (attempt.items == [] || attempt.write.Complete?)
    ensures !attempt.Snapshot? ==> books.View() == old(books.View())
    ensures attempt.Snapshot? ==> PartlyWritten(old(books.View()), books.View(), attempt.items, attempt.millis)
    ensures ok && old(books.View()).Keys <= Ids(attempt.items) ==> books.View().Keys == Live(attempt.items)
  {
    match attempt
    case NoToken => ok := false;
    case NoSnapshot => ok := false;
    case Snapshot(items, millis, write) =>
      ghost var before := books.View();
      var _, _, saved := SaveBooksSnapshot(books, items, millis, write);
      ok := saved;
      if before.Keys <= Ids(items) {
        SyncedOnce(before, items, millis, millis);
      }
  }

  /** The ids of the books in the snapshots among the first `n` attempts. */
  function Covered(attempts: seq<Attempt>, n: nat): set<int>
    requires n <= |attempts|
  {
    if n == 0 then {}
    else Covered(attempts, n - 1) + IdsOfAttempt(attempts[n - 1])
  }

  /** The attempt deletes the book's row, if it gets that far. */
  predicate Deletes(a: Attempt, id: int) {
    a.Snapshot? && id in Dead(a.items)
  }

  predicate Brings(a: Attempt, id: int, stamp: Stamp) {
    a.Snapshot? && id in Live(a.items) && stamp == Date(a.millis)
  }

  /** What the first `n` attempts, failed ones included, leave of one book's row: if none of them deletes
      it, it stays as it was, and a row that is there now was there or one of them brought it. */
  ghost predicate AttemptedFor(before: Rows, after: Rows, attempts: seq<Attempt>, n: nat, id: int)
    requires n <= |attempts|
  {
    && (id in before && (forall i :: 0 <= i < n ==> !Deletes(attempts[i], id)) ==> Row(after, id) == Some(before[id]))
    && (id in after ==>
          Row(before, id) == Some(after[id]) || exists i :: 0 <= i < n && Brings(attempts[i], id, after[id]))
  }

  ghost predicate Attempted(before: Rows, after: Rows, attempts: seq<Attempt>, n: nat)
    requires n <= |attempts|
  {
    forall id :: AttemptedFor(before, after, attempts, n, id)
  }

  lemma OneMoreAttempt(before: Rows, rows: Rows, after: Rows, attempts: seq<Attempt>, n: nat)
    requires n < |attempts| && Attempted(before, rows, attempts, n)
    requires !attempts[n].Snapshot? ==> after == rows
    requires attempts[n].Snapshot? ==> PartlyWritten(rows, after, attempts[n].items, attempts[n].millis)
    ensures Attempted(before, after, attempts, n + 1)
    ensures after.Keys <= rows.Keys + IdsOfAttempt(attempts[n])
  {
    var more := n + 1;
    forall id | id in after.Keys ensures id in rows.Keys + IdsOfAttempt(attempts[n]) {
      assert id in rows || id in Live(attempts[n].items);
    }
    forall id ensures AttemptedFor(before, after, attempts, more, id) {
      assert AttemptedFor(before, rows, attempts, n, id);
      if id in after && id !in rows {
        assert Brings(attempts[n], id, after[id]);
      }
      if id in before && forall i :: 0 <= i < n + 1 ==> !Deletes(attempts[i], id) {
        assert !Deletes(attempts[n], id) && Row(rows, id) == Some(before[id]);
      }
    }
  }

  /** One turn, seen from the start of the loop. */
  method TryNext(books: BookCollection, attempts: seq<Attempt>, n: nat, ghost before: Rows) returns (ok: bool)
    requires books.Valid() && n < |attempts| && Attempted(before, books.View(), attempts, n)
    requires attempts[n].Snapshot? ==> DistinctIds(attempts[n].items)
    modifies books
    ensures books.Valid() && Attempted(before, books.View(), attempts, n + 1)
    ensures ok <==> Succeeds(attempts[n])
    ensures books.View().Keys <= old(books.View()).Keys + IdsOfAttempt(attempts[n])
    ensures ok && old(books.View()).Keys <= Ids(attempts[n].items) ==> books.View().Keys == Live(attempts[n].items)
  {
    ghost var rows := books.View();
    ok := TryOnce(books, attempts[n]);
    OneMoreAttempt(before, rows, books.View(), attempts, n);
  }

  /** `StartBookSync` over the attempts its surroundings offer. The first attempt that can succeed is
      the last one made; the wait before each is the backoff delay of its number; and when that
      snapshot covers the rows there were and the books of every earlier snapshot, partly written or
      not, the collection ends with exactly its live books. */
  method StartBookSync(books: BookCollection, attempts: seq<Attempt>, outOfRange: int)
      returns (waits: seq<int>, synced: Option<nat>)
    requires books.Valid()
    requires forall i :: 0 <= i < |attempts| && attempts[i].Snapshot? ==> DistinctIds(attempts[i].items)
    modifies books
    ensures books.Valid() && |waits| <= |attempts|
    ensures Attempted(old(books.View()), books.View(), attempts, |waits|)
    ensures forall i :: 0 <= i < |waits| ==> waits[i] == GoRetry.Delay(i, outOfRange)
    ensures synced.None? ==> |waits| == |attempts| && forall i :: 0 <= i < |attempts| ==> !Succeeds(attempts[i])
    ensures synced.Some? ==>
              && synced.value < |attempts| && |waits| == synced.value + 1
              && Succeeds(attempts[synced.value])
              && forall i :: 0 <= i < synced.value ==> !Succeeds(attempts[i])
    ensures synced.Some?
              && old(books.View()).Keys + Covered(attempts, synced.value) <= Ids(attempts[synced.value].items)
            ==> books.View().Keys == Live(attempts[synced.value].items)
  {
    waits := [];
    var attempt := 0;
    ghost var first := books.View().Keys;
    while attempt < |attempts|
      invariant 0 <= attempt <= |attempts| && |waits| == attempt && books.Valid()
      invariant forall i :: 0 <= i < attempt ==> waits[i] == GoRetry.Delay(i, outOfRange)
      invariant forall i :: 0 <= i < attempt ==> !Succeeds(attempts[i])
      invariant books.View().Keys <= first + Covered(attempts, attempt)
      invariant Attempted(old(books.View()), books.View(), attempts, attempt)
    {
      waits := waits + [GoRetry.Delay(attempt, outOfRange)];
      attempt := attempt + 1;
      var ok := TryNext(books, attempts, attempt - 1, old(books.View()));
      if ok {
        synced := Some(attempt - 1);
        return;
      }
    }
    synced := None;
  }
}
