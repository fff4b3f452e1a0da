/** The circulation operations of DatabaseHandler: each runs one statement
    against the persistent `books` table, modelled here as a field that the
    operations update in place. A statement that fails (duplicate key, NULL
    name) has its SQLException caught and printed, so the table is unchanged. */
module DatabaseHandler {
  import opened Sql
  import opened Books

  class Library {
    /** The contents of the `books` table, keyed by `id`. */
    var books: Table

    /** A freshly initialised database: the table exists and holds no rows. */
    constructor ()
      ensures books == map[]
    {
      books := map[];
    }

    /** addBook: insert a new Available book with no borrower data. */
    method AddBook(id: Int32, name: Option<string>, author: Option<string>, year: Int32)
      modifies this
      ensures books == Insert(old(books), id, name, author, year)
      ensures AllConsistent(old(books)) ==> AllConsistent(books)
    {
      if id in books {
        return;  // PRIMARY KEY constraint failed
      }
      if name.None? {
        return;  // NOT NULL constraint failed: books.name
      }
      books := books[id := NewBook(name.value, author, year)];
      if AllConsistent(old(books)) {
        InsertPreservesConsistency(old(books), id, name, author, year);
      }
    }

    /** searchAndLoadTable: collect, one selected row at a time, the five shown
        columns of every book whose name, author or id is LIKE '%keyword%'. */
    method SearchAndLoadTable(keyword: Option<string>) returns (rows: seq<Row>)
      ensures forall r :: r in rows <==> r in SearchResult(books, keyword)
      ensures forall i, j :: 0 <= i < j < |rows| ==> rows[i].id != rows[j].id
    {
      var p := Pattern(keyword);
      var pending := books.Keys;
      rows := [];
      while pending != {}
        invariant pending <= books.Keys
        invariant forall r :: r in rows ==>
          r.id in books && r.id !in pending && Selected(r.id, books[r.id], p) && r == Project(r.id, books[r.id])
        invariant forall id :: id in books && id !in pending && Selected(id, books[id], p) ==>
          Project(id, books[id]) in rows
        invariant forall i, j :: 0 <= i < j < |rows| ==> rows[i].id != rows[j].id
        decreases pending
      {
        var id :| id in pending;
        var b := books[id];
        if Selected(id, b, p) {
          rows := rows + [Project(id, b)];
        }
        pending := pending - {id};
      }
    }

    /** borrowBook: mark the book Borrowed and record who borrowed it, when. */
    method BorrowBook(bookId: Int32, borrower: Option<string>, program: Option<string>, date: Option<string>)
      modifies this
      ensures books == Borrow(old(books), bookId, borrower, program, date)
      ensures AllConsistent(old(books)) && borrower.Some? && program.Some? && date.Some? ==> AllConsistent(books)
    {
      if bookId in books {
        books := books[bookId := books[bookId].(status := Borrowed, borrowerName := borrower, program := program, borrowDate := date)];
      }
      if AllConsistent(old(books)) && borrower.Some? && program.Some? && date.Some? {
        BorrowPreservesConsistency(old(books), bookId, borrower, program, date);
      }
    }

    /** returnBook: mark the book Available and clear the borrower columns. */
    method ReturnBook(bookId: Int32)
      modifies this
      ensures books == Return(old(books), bookId)
      ensures AllConsistent(old(books)) ==> AllConsistent(books)
    {
      if bookId in books {
        books := books[bookId := books[bookId].(status := Available, borrowerName := None, program := None, borrowDate := None)];
      }
      if AllConsistent(old(books)) {
        ReturnPreservesConsistency(old(books), bookId);
      }
    }

    /** removeBook: delete the row with that id, if there is one. */
    method RemoveBook(bookId: Int32)
      modifies this
      ensures books == Delete(old(books), bookId)
      ensures AllConsistent(old(books)) ==> AllConsistent(books)
    {
      books := books - {bookId};
    }
  }

  /** A return right after a return, and a borrow of a shelved book undone by a
      return, as a caller of the class sees them. */
  method CirculationScenario(lib: Library, id: Int32, borrower: string, program: string, date: string)
    requires id in lib.books && lib.books[id].status == Available && Consistent(lib.books[id])
    modifies lib
    ensures lib.books == old(lib.books)
  {
    lib.BorrowBook(id, Some(borrower), Some(program), Some(date));
    lib.ReturnBook(id);
    BorrowThenReturnRestores(old(lib.books), id, Some(borrower), Some(program), Some(date));
    lib.ReturnBook(id);
    ReturnIdempotent(old(lib.books), id);
  }
}
