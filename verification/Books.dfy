/** The book service: the source of truth for books. A book is never removed, only marked deleted. */
module Books {
  import opened Basics

  datatype BookRow = BookRow(title: string, author: string, isDeleted: bool)

  type Table = map<int, BookRow>

  datatype BookDto = BookDto(id: int, title: string, author: string, isDeleted: bool)

  /** A message handed to the broker, by routing key. */
  datatype Event = Created(dto: BookDto) | Deleted(dto: BookDto)

  datatype Response<+T> = Ok(value: T) | Forbidden | NotFound

  function DtoOf(id: int, row: BookRow): BookDto {
    BookDto(id, row.title, row.author, row.isDeleted)
  }

  function CommitNew(table: Table, id: int, title: string, author: string): Table {
    table[id := BookRow(title, author, false)]
  }

  function MarkDeleted(table: Table, id: int): Table
    requires id in table
  {
    table[id := table[id].(isDeleted := true)]
  }

  /** What a table may become: rows are only added, keep title and author, and stay deleted. */
  ghost predicate Evolves(before: Table, after: Table) {
    forall id :: id in before ==>
      && id in after
      && after[id].title == before[id].title && after[id].author == before[id].author
      && (before[id].isDeleted ==> after[id].isDeleted)
  }

  function LiveIds(table: Table): set<int> {
    set id | id in table && !table[id].isDeleted
  }

  /** `dtos` lists each of the rows `ids`, once, in some order. */
  ghost predicate Lists(dtos: seq<BookDto>, table: Table, ids: set<int>) {
    && (forall i :: 0 <= i < |dtos| ==>
          && dtos[i].id in ids && dtos[i].id in table
          && dtos[i].title == table[dtos[i].id].title && dtos[i].author == table[dtos[i].id].author
          && dtos[i].isDeleted == table[dtos[i].id].isDeleted)
    && (forall i, j :: 0 <= i < j < |dtos| ==> dtos[i].id != dtos[j].id)
    && (forall id :: id in ids ==> exists i :: 0 <= i < |dtos| && dtos[i].id == id)
  }

  lemma ListsOneMore(dtos: seq<BookDto>, table: Table, ids: set<int>, id: int)
    requires Lists(dtos, table, ids) && id in table && id !in ids
    ensures Lists(dtos + [DtoOf(id, table[id])], table, ids + {id})
  {
    var more := dtos + [DtoOf(id, table[id])];
    assert forall i :: 0 <= i < |dtos| ==> more[i] == dtos[i];
    forall k | k in ids + {id} ensures exists i :: 0 <= i < |more| && more[i].id == k {
      if k in ids {
        var i :| 0 <= i < |dtos| && dtos[i].id == k;
        assert more[i].id == k;
      } else {
        assert more[|dtos|].id == k;
      }
    }
  }

  class BookService {
    var rows: Table
    var nextId: int             // the table's id sequence
    var published: seq<Event>   // messages handed to the broker, oldest first

    ghost predicate Valid()
      reads this
    {
      forall id :: id in rows ==> id < nextId
    }

    constructor ()
      ensures Valid() && rows == map[] && published == []
    {
      rows, nextId, published := map[], 1, [];
    }

    /** `create_book` run to its end with no other request in between. */
    method CreateBook(admin: bool, title: string, author: string) returns (response: Response<BookDto>)
      requires Valid()
      modifies this
      ensures Valid() && Evolves(old(rows), rows)
      ensures !admin ==> response == Forbidden && unchanged(this)
      ensures admin ==>
                && response.Ok? && response.value == BookDto(response.value.id, title, author, false)
                && response.value.id !in old(rows)
                && rows == old(rows)[response.value.id := BookRow(title, author, false)]
                && published == old(published) + [Created(response.value)]
    {
      if !admin {
        return Forbidden;
      }
      var id := nextId;
      rows := CommitNew(rows, id, title, author);
      nextId := nextId + 1;
      var result := DtoOf(id, rows[id]);
      published := published + [Created(result)];
      response := Ok(result);
    }

    /** `delete_book` run to its end; deleting a deleted book publishes again. */
    method DeleteBook(admin: bool, id: int) returns (response: Response<()>)
      requires Valid()
      modifies this
      ensures Valid() && Evolves(old(rows), rows)
      ensures response == if !admin then Forbidden else if id !in old(rows) then NotFound else Ok(())
      ensures response != Ok(()) ==> unchanged(this)
      ensures response == Ok(()) ==>
                && LiveIds(rows) == LiveIds(old(rows)) - {id} && rows.Keys == old(rows).Keys
                && rows == old(rows)[id := BookRow(old(rows)[id].title, old(rows)[id].author, true)]
                && published == old(published) + [Deleted(BookDto(id, rows[id].title, rows[id].author, true))]
    {
      if !admin {
        return Forbidden;
      }
      if id !in rows {
        return NotFound;
      }
      rows := MarkDeleted(rows, id);
      published := published + [Deleted(DtoOf(id, rows[id]))];
      response := Ok(());
    }

    /** The rows `ids`, in whatever order the database returns them. */
    method Select(ids: set<int>) returns (result: seq<BookDto>)
      requires ids <= rows.Keys
      ensures Lists(result, rows, ids)
    {
      result := [];
      var left := ids;
      while left != {}
        invariant left <= ids
        invariant Lists(result, rows, ids - left)
        decreases |left|
      {
        ghost var some := SomeMember(left);
        var id :| id in left;
        ListsOneMore(result, rows, ids - left, id);
        result := result + [DtoOf(id, rows[id])];
        left := left - {id};
        assert ids - left == (ids - (left + {id})) + {id};
      }
      assert ids - left == ids;
    }

    method GetAllBooks() returns (result: seq<BookDto>)
      ensures Lists(result, rows, set id | id in rows && !rows[id].isDeleted)
      ensures forall i :: 0 <= i < |result| ==> !result[i].isDeleted
    {
      result := Select(set id | id in rows && !rows[id].isDeleted);
    }

    /** Every row, deleted ones with their mark. */
    method InternalSnapshot() returns (result: seq<BookDto>)
      ensures Lists(result, rows, rows.Keys)
    {
      result := Select(rows.Keys);
    }
  }
}
