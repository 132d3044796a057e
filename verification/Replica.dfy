/** The review service's "books" collection: what a single database operation does to it, the event
    handlers that issue those operations, and what a whole log of operations leaves behind. */
module Replica {
  import opened Basics

  /** The `timestamp` field of a document. Event handlers store a string, the snapshot sync stores a
      date, and the database never finds a string equal to a date. */
  datatype Stamp = Text(s: string) | Date(millis: int)

  const EVENT_STAMP := Text("43")

  /** A document of the collection; a unique index covers `bookId`. */
  datatype Doc = Doc(bookId: int, stamp: Stamp)

  /** The collection seen through its unique index. */
  type Rows = map<int, Stamp>

  datatype Op =
    | EventInsert(id: int)           // InsertOne of the event document
    | EventDelete(id: int)           // DeleteOne matching the whole event document
    | Upsert(id: int, millis: int)   // UpdateOne with $setOnInsert and upsert
    | SyncDelete(id: int)            // DeleteOne matching the book id only

  function ApplyOp(rows: Rows, op: Op): Rows {
    match op
    case EventInsert(id) => if id in rows then rows else rows[id := EVENT_STAMP]
    case EventDelete(id) => if id in rows && rows[id] == EVENT_STAMP then rows - {id} else rows
    case Upsert(id, millis) => if id in rows then rows else rows[id := Date(millis)]
    case SyncDelete(id) => rows - {id}
  }

  function Replay(rows: Rows, log: seq<Op>): Rows
    decreases |log|
  {
    if log == [] then rows else Replay(ApplyOp(rows, log[0]), log[1..])
  }

  lemma {:induction false} ReplayConcat(rows: Rows, a: seq<Op>, b: seq<Op>)
    ensures Replay(rows, a + b) == Replay(Replay(rows, a), b)
    decreases |a|
  {
    if a == [] {
      assert a + b == b;
    } else {
      assert (a + b)[1..] == a[1..] + b;
      ReplayConcat(ApplyOp(rows, a[0]), a[1..], b);
    }
  }

  lemma ReplaySnoc(rows: Rows, log: seq<Op>, op: Op)
    ensures Replay(rows, log + [op]) == ApplyOp(Replay(rows, log), op)
  {
    ReplayConcat(rows, log, [op]);
    assert Replay(Replay(rows, log), [op]) == Replay(ApplyOp(Replay(rows, log), op), []);
  }

  // ---- One book at a time -------------------------------------------------------------------

  function Row(rows: Rows, id: int): Option<Stamp> {
    if id in rows then Some(rows[id]) else None
  }

  function OpsOf(log: seq<Op>, id: int): seq<Op> {
    if log == [] then []
    else (if log[0].id == id then [log[0]] else []) + OpsOf(log[1..], id)
  }

  /** The life of a single book's row, with no collection around it. */
  function RowAfter(row: Option<Stamp>, log: seq<Op>): Option<Stamp>
    decreases |log|
  {
    if log == [] then row
    else
      var next := match log[0]
        case EventInsert(_) => if row.Some? then row else Some(EVENT_STAMP)
        case EventDelete(_) => if row == Some(EVENT_STAMP) then None else row
        case Upsert(_, millis) => if row.Some? then row else Some(Date(millis))
        case SyncDelete(_) => None;
      RowAfter(next, log[1..])
  }

  /** Replaying a whole log leaves each book exactly as replaying that book's own operations does. */
  lemma {:induction false} Projection(rows: Rows, log: seq<Op>, id: int)
    ensures Row(Replay(rows, log), id) == RowAfter(Row(rows, id), OpsOf(log, id))
    decreases |log|
  {
    if log != [] {
      Projection(ApplyOp(rows, log[0]), log[1..], id);
      if log[0].id == id {
        assert OpsOf(log, id)[0] == log[0] && OpsOf(log, id)[1..] == OpsOf(log[1..], id);
      } else {
        assert OpsOf(log, id) == OpsOf(log[1..], id);
      }
    }
  }

  lemma RowsEqual(a: Rows, b: Rows)
    requires forall id :: Row(a, id) == Row(b, id)
    ensures a == b
  {
    forall id ensures id in a <==> id in b {
      assert Row(a, id) == Row(b, id);
    }
    forall id | id in a ensures a[id] == b[id] {
      assert Row(a, id) == Row(b, id);
    }
  }

  /** Operations on different books commute wherever they stand next to each other in a log, and an
      operation repeated at once changes nothing more. */
  lemma SwapAndRepeat(rows: Rows, before: seq<Op>, x: Op, y: Op, after: seq<Op>)
    ensures x.id != y.id ==>
              Replay(rows, before + [x, y] + after) == Replay(rows, before + [y, x] + after)
    ensures Replay(rows, before + [x, x] + after) == Replay(rows, before + [x] + after)
  {
    TwoThenRest(rows, before, x, y, after);
    TwoThenRest(rows, before, y, x, after);
    TwoThenRest(rows, before, x, x, after);
    assert before + [x] + after == before + ([x] + after);
    ReplayConcat(rows, before, [x] + after);
    OneThenRest(Replay(rows, before), x, after);
    TwoOps(Replay(rows, before), x, y);
  }

  lemma TwoOps(rows: Rows, x: Op, y: Op)
    ensures x.id != y.id ==> ApplyOp(ApplyOp(rows, x), y) == ApplyOp(ApplyOp(rows, y), x)
    ensures ApplyOp(ApplyOp(rows, x), x) == ApplyOp(rows, x)
  {
    if x.id != y.id {
      forall id ensures Row(ApplyOp(ApplyOp(rows, x), y), id) == Row(ApplyOp(ApplyOp(rows, y), x), id) {
      }
      RowsEqual(ApplyOp(ApplyOp(rows, x), y), ApplyOp(ApplyOp(rows, y), x));
    }
  }

  lemma OneThenRest(rows: Rows, x: Op, after: seq<Op>)
    ensures Replay(rows, [x] + after) == Replay(ApplyOp(rows, x), after)
  {
  }

  lemma TwoThenRest(rows: Rows, before: seq<Op>, x: Op, y: Op, after: seq<Op>)
    ensures Replay(rows, before + [x, y] + after)
         == Replay(ApplyOp(ApplyOp(Replay(rows, before), x), y), after)
  {
    assert before + [x, y] + after == before + ([x] + ([y] + after));
    ReplayConcat(rows, before, [x] + ([y] + after));
    OneThenRest(Replay(rows, before), x, [y] + after);
    OneThenRest(ApplyOp(Replay(rows, before), x), y, after);
  }

  // ---- The collection, updated in place -----------------------------------------------------

  ghost predicate UniqueIds(docs: seq<Doc>) {
    forall i, j :: 0 <= i < j < |docs| ==> docs[i].bookId != docs[j].bookId
  }

  ghost function ViewOf(docs: seq<Doc>): Rows
    requires UniqueIds(docs)
  {
    map i | 0 <= i < |docs| :: docs[i].bookId := docs[i].stamp
  }

  lemma ViewSize(docs: seq<Doc>)
    requires UniqueIds(docs)
    ensures |ViewOf(docs)| == |docs|
  {
    if docs != [] {
      var last := |docs| - 1;
      ViewSize(docs[..last]);
      ViewWithout(docs, last);
      assert Without(docs, last) == docs[..last];
      assert ViewOf(docs).Keys == ViewOf(docs[..last]).Keys + {docs[last].bookId};
    }
  }

  lemma ViewCharacterised(docs: seq<Doc>, rows: Rows)
    requires UniqueIds(docs)
    requires forall i :: 0 <= i < |docs| ==> docs[i].bookId in rows && rows[docs[i].bookId] == docs[i].stamp
    requires forall id :: id in rows ==> exists i :: 0 <= i < |docs| && docs[i].bookId == id
    ensures ViewOf(docs) == rows
  {
    var view := ViewOf(docs);
    forall id | id in rows ensures id in view && view[id] == rows[id] {
      var i :| 0 <= i < |docs| && docs[i].bookId == id;
    }
    forall id | id in view ensures id in rows {
      var i :| 0 <= i < |docs| && docs[i].bookId == id;
    }
  }

  lemma UniqueWith(docs: seq<Doc>, doc: Doc)
    requires UniqueIds(docs) && doc.bookId !in ViewOf(docs)
    ensures UniqueIds(docs + [doc])
  {
    forall k | 0 <= k < |docs| ensures docs[k].bookId != doc.bookId {
      assert docs[k].bookId in ViewOf(docs);
    }
  }

  lemma ViewWith(docs: seq<Doc>, doc: Doc)
    requires UniqueIds(docs) && doc.bookId !in ViewOf(docs)
    ensures UniqueIds(docs + [doc])
    ensures ViewOf(docs + [doc]) == ViewOf(docs)[doc.bookId := doc.stamp]
  {
    UniqueWith(docs, doc);
    var more, rows := docs + [doc], ViewOf(docs)[doc.bookId := doc.stamp];
    forall k | 0 <= k < |more| ensures more[k].bookId in rows && rows[more[k].bookId] == more[k].stamp {
      if k < |docs| {
        assert more[k] == docs[k] && docs[k].bookId in ViewOf(docs);
      }
    }
    forall id | id in rows.Keys ensures exists k :: 0 <= k < |more| && more[k].bookId == id {
      if id == doc.bookId {
        assert more[|docs|].bookId == id;
      } else {
        var k :| 0 <= k < |docs| && docs[k].bookId == id;
        assert more[k].bookId == id;
      }
    }
    ViewCharacterised(more, rows);
  }

  function Without(docs: seq<Doc>, i: int): (left: seq<Doc>)
    requires 0 <= i < |docs|
    ensures |left| == |docs| - 1
    ensures forall k :: 0 <= k < |left| ==> left[k] == docs[if k < i then k else k + 1]
  {
    docs[..i] + docs[i + 1..]
  }

  lemma UniqueWithout(docs: seq<Doc>, i: int)
    requires UniqueIds(docs) && 0 <= i < |docs|
    ensures UniqueIds(Without(docs, i))
  {
  }

  lemma ViewWithout(docs: seq<Doc>, i: int)
    requires UniqueIds(docs) && 0 <= i < |docs|
    ensures UniqueIds(Without(docs, i))
    ensures ViewOf(Without(docs, i)) == ViewOf(docs) - {docs[i].bookId}
  {
    UniqueWithout(docs, i);
    var left := Without(docs, i);
    var rows := ViewOf(docs) - {docs[i].bookId};
    forall k | 0 <= k < |left| ensures left[k].bookId in rows && rows[left[k].bookId] == left[k].stamp {
      var j := if k < i then k else k + 1;
      assert left[k] == docs[j] && docs[j].bookId in ViewOf(docs);
    }
    forall id | id in rows.Keys ensures exists k :: 0 <= k < |left| && left[k].bookId == id {
      var j :| 0 <= j < |docs| && docs[j].bookId == id;
      assert left[if j < i then j else j - 1].bookId == id;
    }
    ViewCharacterised(left, rows);
  }

  datatype WriteResult = Inserted | DuplicateKey | Deleted | NothingDeleted | Upserted | Matched

  class BookCollection {
    var docs: seq<Doc>

    ghost predicate Valid()
      reads this
    {
      UniqueIds(docs)
    }

    ghost function View(): Rows
      reads this
      requires Valid()
    {
      ViewOf(docs)
    }

    constructor ()
      ensures Valid() && View() == map[]
    {
      docs := [];
    }

    method Find(id: int) returns (at: int)
      requires Valid()
      ensures -1 <= at < |docs|
      ensures at >= 0 ==> docs[at].bookId == id && Row(View(), id) == Some(docs[at].stamp)
      ensures at == -1 ==> Row(View(), id) == None
    {
      at := 0;
      while at < |docs|
        invariant 0 <= at <= |docs|
        invariant forall k :: 0 <= k < at ==> docs[k].bookId != id
      {
        if docs[at].bookId == id {
          return;
        }
        at := at + 1;
      }
      at := -1;
    }

    method Append(doc: Doc)
      requires Valid() && doc.bookId !in View()
      modifies this
      ensures Valid() && View() == old(View())[doc.bookId := doc.stamp]
    {
      assert forall k :: 0 <= k < |docs| ==> docs[k].bookId in View();
      ViewWith(docs, doc);
      docs := docs + [doc];
    }

    method InsertOne(doc: Doc) returns (result: WriteResult)
      requires Valid()
      modifies this
      ensures Valid()
      ensures View() == if doc.bookId in old(View()) then old(View()) else old(View())[doc.bookId := doc.stamp]
      ensures result == if doc.bookId in old(View()) then DuplicateKey else Inserted
    {
      var at := Find(doc.bookId);
      if at >= 0 {
        return DuplicateKey;
      }
      Append(doc);
      result := Inserted;
    }

    /** DeleteOne whose filter is the whole document. */
    method DeleteOneDocument(doc: Doc) returns (result: WriteResult)
      requires Valid()
      modifies this
      ensures Valid()
      ensures View() == if Row(old(View()), doc.bookId) == Some(doc.stamp) then old(View()) - {doc.bookId}
                        else old(View())
      ensures result == if Row(old(View()), doc.bookId) == Some(doc.stamp) then Deleted else NothingDeleted
    {
      var at := Find(doc.bookId);
      if at >= 0 && docs[at] == doc {
        ViewWithout(docs, at);
        docs := Without(docs, at);
        return Deleted;
      }
      result := NothingDeleted;
    }

    /** DeleteOne whose filter is the book id alone. */
    method DeleteOneById(id: int) returns (result: WriteResult)
      requires Valid()
      modifies this
      ensures Valid() && View() == old(View()) - {id}
      ensures result == if id in old(View()) then Deleted else NothingDeleted
    {
      var at := Find(id);
      if at >= 0 {
        ViewWithout(docs, at);
        docs := Without(docs, at);
        return Deleted;
      }
      result := NothingDeleted;
    }

    /** One operation of a bulk write, or of an event handler. */
    method Execute(op: Op) returns (result: WriteResult)
      requires Valid()
      modifies this
      ensures Valid() && View() == ApplyOp(old(View()), op)
      ensures op.SyncDelete? ==> View() == old(View()) - {op.id}
      ensures op.Upsert? ==>
                View() == if op.id in old(View()) then old(View()) else old(View())[op.id := Date(op.millis)]
      ensures result == Upserted <==> op.Upsert? && op.id !in old(View())
      ensures result == Deleted <==> op.id in old(View()) && op.id !in View()
    {
      match op
      case EventInsert(id) =>
        result := InsertOne(Doc(id, EVENT_STAMP));
      case EventDelete(id) =>
        result := DeleteOneDocument(Doc(id, EVENT_STAMP));
      case Upsert(id, millis) =>
        var at := Find(id);
        if at >= 0 {
          return Matched;
        }
        Append(Doc(id, Date(millis)));
        result := Upserted;
      case SyncDelete(id) =>
        result := DeleteOneById(id);
    }
  }

  // ---- Event handlers and the delivery loop -------------------------------------------------

  datatype Body = Garbled | Json(id: int, isDeleted: bool)

  datatype Delivery = Delivery(routingKey: string, body: Body)

  /** The document an event stands for, or None when its body cannot be parsed. */
  function Unmarshal(body: Body): (doc: Option<Doc>)
    ensures doc.Some? <==> body.Json?
    ensures doc.Some? ==> doc.value == Doc(body.id, Text("43"))
  {
    if body.Garbled? then None else Some(Doc(body.id, EVENT_STAMP))
  }

  /** The operations a run of deliveries amounts to. */
  function OpsOfDeliveries(msgs: seq<Delivery>): seq<Op> {
    if msgs == [] then []
    else
      var m := msgs[0];
      (if m.body.Garbled? then []
       else if m.routingKey == "book.created" then [EventInsert(m.body.id)]
       else if m.routingKey == "book.deleted" then [EventDelete(m.body.id)]
       else [])
      + OpsOfDeliveries(msgs[1..])
  }

  method HandleBookCreated(books: BookCollection, body: Body) returns (outcome: Option<WriteResult>)
    requires books.Valid()
    modifies books
    ensures books.Valid()
    ensures body.Garbled? ==> outcome == None && books.View() == old(books.View())
    ensures body.Json? ==>
              && books.View() == (if body.id in old(books.View()) then old(books.View())
                                  else old(books.View())[body.id := Text("43")])
              && outcome == Some(if body.id in old(books.View()) then DuplicateKey else Inserted)
  {
    var book := Unmarshal(body);
    if book.None? {
      return None;
    }
    var result := books.InsertOne(book.value);
    outcome := Some(result);
  }

  method HandleBookDeleted(books: BookCollection, body: Body) returns (outcome: Option<WriteResult>)
    requires books.Valid()
    modifies books
    ensures books.Valid()
    ensures body.Garbled? ==> outcome == None && books.View() == old(books.View())
    ensures body.Json? ==>
              && var found := body.id in old(books.View()) && old(books.View())[body.id] == Text("43");
              && books.View() == (if found then old(books.View()) - {body.id} else old(books.View()))
              && outcome == Some(if found then Deleted else NothingDeleted)
  {
    var book := Unmarshal(body);
    if book.None? {
      return None;
    }
    var result := books.DeleteOneDocument(book.value);
    outcome := Some(result);
  }

  /** A message that says something about the book: it parses, and has one of the two keys. */
  predicate About(m: Delivery, id: int) {
    m.body.Json? && m.body.id == id && (m.routingKey == "book.created" || m.routingKey == "book.deleted")
  }

  ghost predicate LastAbout(msgs: seq<Delivery>, k: nat, id: int) {
    k < |msgs| && About(msgs[k], id) && forall j :: k < j < |msgs| ==> !About(msgs[j], id)
  }

  /** What messages make of one book's row: a row with a date stays; otherwise the last message about
      the book decides; and without any the row is as before. */
  ghost predicate DecidedFor(before: Rows, after: Rows, msgs: seq<Delivery>, id: int) {
    && (id in before && before[id] != Text("43") ==> id in after && after[id] == before[id])
    && (forall k: nat :: LastAbout(msgs, k, id) && (id in before ==> before[id] == Text("43")) ==>
          if msgs[k].routingKey == "book.created" then id in after && after[id] == Text("43") else id !in after)
    && ((forall k :: 0 <= k < |msgs| ==> !About(msgs[k], id)) ==>
          (id in after <==> id in before) && (id in before ==> after[id] == before[id]))
  }

  ghost predicate Decided(before: Rows, after: Rows, msgs: seq<Delivery>) {
    forall id :: DecidedFor(before, after, msgs, id)
  }

  lemma LastAboutSnoc(msgs: seq<Delivery>, m: Delivery, id: int)
    ensures forall k: nat :: LastAbout(msgs + [m], k, id) <==>
              if About(m, id) then k == |msgs| else LastAbout(msgs, k, id)
    ensures (exists k: nat :: LastAbout(msgs, k, id)) || forall k :: 0 <= k < |msgs| ==> !About(msgs[k], id)
    decreases |msgs|
  {
    var more := msgs + [m];
    assert more[|msgs|] == m && forall j :: 0 <= j < |msgs| ==> more[j] == msgs[j];
    if msgs != [] {
      var front, last := msgs[..|msgs| - 1], msgs[|msgs| - 1];
      assert msgs == front + [last];
      LastAboutSnoc(front, last, id);
      if About(last, id) {
        assert LastAbout(msgs, |msgs| - 1, id);
      }
    }
  }

  /** One more message: a creation inserts an event row where there is none, a deletion takes an event
      row away, and anything else changes nothing. */
  lemma DecidedSnoc(before: Rows, rows: Rows, after: Rows, msgs: seq<Delivery>, m: Delivery)
    requires Decided(before, rows, msgs)
    requires forall id :: !About(m, id) ==> Row(after, id) == Row(rows, id)
    requires forall id :: About(m, id) && m.routingKey == "book.created" ==>
               Row(after, id) == if id in rows then Some(rows[id]) else Some(Text("43"))
    requires forall id :: About(m, id) && m.routingKey == "book.deleted" ==>
               Row(after, id) == if Row(rows, id) == Some(Text("43")) then None else Row(rows, id)
    ensures Decided(before, after, msgs + [m])
  {
    var more := msgs + [m];
    assert more[|msgs|] == m && forall j :: 0 <= j < |msgs| ==> more[j] == msgs[j];
    forall id ensures DecidedFor(before, after, more, id) {
      assert DecidedFor(before, rows, msgs, id);
      assert Row(after, id).Some? <==> id in after;
      LastAboutSnoc(msgs, m, id);
    }
  }

  /** The consumer's delivery loop over the messages it receives before its channel closes. */
  method ConsumeBooks(books: BookCollection, msgs: seq<Delivery>)
    requires books.Valid()
    modifies books
    ensures books.Valid() && books.View() == Replay(old(books.View()), OpsOfDeliveries(msgs))
    ensures Decided(old(books.View()), books.View(), msgs)
  {
    assert msgs[..0] == [];
    for i := 0 to |msgs|
      invariant books.Valid() && Decided(old(books.View()), books.View(), msgs[..i])
      invariant Replay(books.View(), OpsOfDeliveries(msgs[i..])) == Replay(old(books.View()), OpsOfDeliveries(msgs))
    {
      var msg := msgs[i];
      ghost var rest := OpsOfDeliveries(msgs[i + 1..]);
      assert msgs[i..][1..] == msgs[i + 1..];
      ghost var rows := books.View();
      match msg.routingKey {
        case "book.created" =>
          assert msg.body.Json? ==> OpsOfDeliveries(msgs[i..]) == [EventInsert(msg.body.id)] + rest;
          var _ := HandleBookCreated(books, msg.body);
        case "book.deleted" =>
          assert msg.body.Json? ==> OpsOfDeliveries(msgs[i..]) == [EventDelete(msg.body.id)] + rest;
          var _ := HandleBookDeleted(books, msg.body);
        case _ =>
      }
      assert OpsOfDeliveries(msgs[i..]) == rest ==> books.View() == rows;
      DecidedSnoc(old(books.View()), rows, books.View(), msgs[..i], msg);
      assert msgs[..i + 1] == msgs[..i] + [msg];
    }
    assert msgs[..|msgs|] == msgs;
  }
}
