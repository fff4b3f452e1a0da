/** The `books` table and the exact effect of each statement that the
    circulation code runs against it. A table is a map from the INTEGER
    PRIMARY KEY `id` to the rest of the row; a statement that raises an
    SQLException leaves the table as it was. */
module Books {
  import opened Sql

  datatype Status = Available | Borrowed

  /** One row of `books` apart from its key. `name` is NOT NULL in the schema;
      the other text columns are nullable. */
  datatype Book = Book(
    name: string,
    author: Option<string>,
    year: Int32,
    status: Status,
    borrowerName: Option<string>,
    program: Option<string>,
    borrowDate: Option<string>)

  type Table = map<Int32, Book>

  /** The five columns the search shows: id, name, author, year, status. */
  datatype Row = Row(id: Int32, name: string, author: Option<string>, year: Int32, status: Status)

  /** Status and borrower columns agree as a unit: an Available book has no
      borrower data, a Borrowed book has all of it. */
  predicate Consistent(b: Book) {
    && (b.status == Available <==> b.borrowerName.None? && b.program.None? && b.borrowDate.None?)
    && (b.status == Borrowed <==> b.borrowerName.Some? && b.program.Some? && b.borrowDate.Some?)
  }

  predicate AllConsistent(t: Table) {
    forall id :: id in t ==> Consistent(t[id])
  }

  /** The row `INSERT ... VALUES(?,?,?,?,'Available')` creates: the columns it
      does not list take their defaults, NULL for the borrower columns. */
  function NewBook(name: string, author: Option<string>, year: Int32): (b: Book)
    ensures b.status == Available && Consistent(b)
    ensures b.name == name && b.author == author && b.year == year
  {
    Book(name, author, year, Available, None, None, None)
  }

  /** The insert fails on a duplicate primary key or on a NULL name; when it
      does not fail, the name is present and the id is new. */
  function InsertFails(t: Table, id: Int32, name: Option<string>): (r: bool)
    ensures id in t ==> r
    ensures name.None? ==> r
    ensures !r ==> name.Some? && id !in t
  {
    id in t || name.None?
  }

  /** `INSERT INTO books(id, name, author, year, status) VALUES(?,?,?,?,'Available')`. */
  function Insert(t: Table, id: Int32, name: Option<string>, author: Option<string>, year: Int32): (r: Table)
    ensures InsertFails(t, id, name) ==> r == t
    ensures !InsertFails(t, id, name) ==>
      && r.Keys == t.Keys + {id}
      && |r| == |t| + 1
      && r[id] == NewBook(name.value, author, year)
      && forall k :: k in t ==> r[k] == t[k]
  {
    if InsertFails(t, id, name) then t else t[id := NewBook(name.value, author, year)]
  }

  /** `UPDATE books SET status = 'Borrowed', borrower_name = ?, program = ?,
      borrow_date = ? WHERE id = ?`. The WHERE clause does not look at the
      current status, and an absent id matches no row. */
  function Borrow(t: Table, id: Int32, borrower: Option<string>, program: Option<string>, date: Option<string>): (r: Table)
    ensures r.Keys == t.Keys
    ensures id in t ==> r[id] == t[id].(status := Borrowed, borrowerName := borrower, program := program, borrowDate := date)
    ensures forall k :: k in t && k != id ==> r[k] == t[k]
  {
    if id in t then
      t[id := t[id].(status := Borrowed, borrowerName := borrower, program := program, borrowDate := date)]
    else t
  }

  /** `UPDATE books SET status = 'Available', borrower_name = NULL, program = NULL,
      borrow_date = NULL WHERE id = ?`. */
  function Return(t: Table, id: Int32): (r: Table)
    ensures r.Keys == t.Keys
    ensures id in t ==> r[id] == NewBook(t[id].name, t[id].author, t[id].year)
    ensures forall k :: k in t && k != id ==> r[k] == t[k]
  {
    if id in t then t[id := t[id].(status := Available, borrowerName := None, program := None, borrowDate := None)]
    else t
  }

  /** `DELETE FROM books WHERE id = ?`. */
  function Delete(t: Table, id: Int32): (r: Table)
    ensures r.Keys == t.Keys - {id}
    ensures |r| == if id in t then |t| - 1 else |t|
    ensures forall k :: k in r ==> r[k] == t[k]
  {
    t - {id}
  }

  // ---------------------------------------------------------------------------
  // Search: `SELECT * FROM books WHERE name LIKE ? OR author LIKE ? OR id LIKE ?`
  // with the same pattern '%' + keyword + '%' bound to all three parameters.
  // ---------------------------------------------------------------------------

  /** Java's `"%" + keyword + "%"`: a null keyword is concatenated as "null". */
  function Pattern(keyword: Option<string>): (p: string)
    ensures |p| >= 2 && p[0] == '%' && p[|p| - 1] == '%'
    ensures keyword.None? ==> p == "%null%"
    ensures keyword.Some? ==> |p| == |keyword.value| + 2 && p[1..|p| - 1] == keyword.value
  {
    "%" + (if keyword.Some? then keyword.value else "null") + "%"
  }

  /** The WHERE clause of the search for one row. A NULL author drops out of
      the OR, and a pattern of `%` only selects every row. */
  function Selected(id: Int32, b: Book, p: string): (r: bool)
    ensures b.author.None? ==> (r <==> Like(b.name, p) || Like(DecimalText(id), p))
    ensures |p| > 0 && (forall j :: 0 <= j < |p| ==> p[j] == '%') ==> r
  {
    Like(b.name, p) || LikeNullable(b.author, p) || Like(DecimalText(id), p)
  }

  /** The five columns the loop copies out of each selected row. */
  function Project(id: Int32, b: Book): (r: Row)
    ensures r.id == id && r.name == b.name && r.author == b.author
    ensures r.year == b.year && r.status == b.status
  {
    Row(id, b.name, b.author, b.year, b.status)
  }

  /** Everything the search returns, as a set: the SELECT has no ORDER BY. */
  ghost function SearchResult(t: Table, keyword: Option<string>): (res: set<Row>)
    ensures forall r :: r in res ==> r.id in t && r == Project(r.id, t[r.id]) && Selected(r.id, t[r.id], Pattern(keyword))
    ensures forall id :: id in t ==> (Project(id, t[id]) in res <==> Selected(id, t[id], Pattern(keyword)))
  {
    set id | id in t && Selected(id, t[id], Pattern(keyword)) :: Project(id, t[id])
  }

  /** For a keyword without wildcards, a row is selected exactly when its name,
      its (non-null) author or the decimal text of its id contains the keyword,
      ignoring ASCII case. */
  lemma SelectedIffContains(id: Int32, b: Book, k: string)
    requires NoWildcards(k)
    ensures Selected(id, b, Pattern(Some(k))) <==>
      || ContainsFolded(b.name, k)
      || (b.author.Some? && ContainsFolded(b.author.value, k))
      || ContainsFolded(DecimalText(id), k)
  {
    LikeContains(b.name, k);
    if b.author.Some? {
      LikeContains(b.author.value, k);
    }
    LikeContains(DecimalText(id), k);
  }

  /** The search for a keyword without wildcards shows a book exactly when its
      name, its author or its id contains the keyword, ignoring ASCII case. */
  lemma SearchFindsSubstring(t: Table, k: string, id: Int32)
    requires NoWildcards(k) && id in t
    ensures Project(id, t[id]) in SearchResult(t, Some(k)) <==>
      || ContainsFolded(t[id].name, k)
      || (t[id].author.Some? && ContainsFolded(t[id].author.value, k))
      || ContainsFolded(DecimalText(id), k)
  {
    SelectedIffContains(id, t[id], k);
  }

  /** The empty keyword selects every row. */
  lemma {:induction false} EmptyKeywordSelectsAll(t: Table)
    ensures forall id :: id in t ==> Project(id, t[id]) in SearchResult(t, Some(""))
  {
    assert Pattern(Some("")) == "%%";
  }

  /** The borrower columns play no part in the search: two tables that differ
      only there give the same rows. */
  lemma SearchIgnoresBorrowerColumns(t: Table, u: Table, keyword: Option<string>)
    requires t.Keys == u.Keys
    requires forall id :: id in t ==>
      u[id] == t[id].(borrowerName := u[id].borrowerName, program := u[id].program, borrowDate := u[id].borrowDate)
    ensures SearchResult(t, keyword) == SearchResult(u, keyword)
  {
    forall id | id in t ensures Project(id, t[id]) == Project(id, u[id]) && (Selected(id, t[id], Pattern(keyword)) <==> Selected(id, u[id], Pattern(keyword))) {
    }
  }

  // ---------------------------------------------------------------------------
  // Properties of the circulation statements.
  // ---------------------------------------------------------------------------

  /** A second return of the same book changes nothing. */
  lemma ReturnIdempotent(t: Table, id: Int32)
    ensures Return(Return(t, id), id) == Return(t, id)
  {
  }

  /** Borrowing a book that is on the shelf and then returning it restores the table. */
  lemma BorrowThenReturnRestores(t: Table, id: Int32, borrower: Option<string>, program: Option<string>, date: Option<string>)
    requires id in t && t[id].status == Available && Consistent(t[id])
    ensures Return(Borrow(t, id, borrower, program, date), id) == t
  {
  }

  /** Whatever the row held before, borrow followed by return leaves it as a
      plain return would: the non-borrower columns survive. */
  lemma BorrowThenReturnIsReturn(t: Table, id: Int32, borrower: Option<string>, program: Option<string>, date: Option<string>)
    ensures Return(Borrow(t, id, borrower, program, date), id) == Return(t, id)
  {
  }

  /** Borrowing an already Borrowed book replaces the previous borrower's data. */
  lemma BorrowOverwritesBorrowed(t: Table, id: Int32, borrower: Option<string>, program: Option<string>, date: Option<string>)
    requires id in t && t[id].status == Borrowed
    ensures var r := Borrow(t, id, borrower, program, date);
      r[id].status == Borrowed && r[id].borrowerName == borrower && r[id].program == program && r[id].borrowDate == date
  {
  }

  /** After a delete the id is free, and adding a book under it succeeds. */
  lemma DeleteThenInsertSucceeds(t: Table, id: Int32, name: string, author: Option<string>, year: Int32)
    ensures Insert(Delete(t, id), id, Some(name), author, year) == t[id := NewBook(name, author, year)]
  {
    var d := Delete(t, id);
    assert !InsertFails(d, id, Some(name));
    assert d[id := NewBook(name, author, year)] == t[id := NewBook(name, author, year)];
  }

  /** An insert that fails on the primary key leaves the existing row intact. */
  lemma DuplicateInsertKeepsRow(t: Table, id: Int32, name: Option<string>, author: Option<string>, year: Int32)
    requires id in t
    ensures Insert(t, id, name, author, year)[id] == t[id]
  {
  }

  /** The statements preserve status/borrower consistency, the borrow only when
      all three borrower values are non-null. */
  lemma InsertPreservesConsistency(t: Table, id: Int32, name: Option<string>, author: Option<string>, year: Int32)
    requires AllConsistent(t)
    ensures AllConsistent(Insert(t, id, name, author, year))
  {
  }

  lemma BorrowPreservesConsistency(t: Table, id: Int32, borrower: Option<string>, program: Option<string>, date: Option<string>)
    requires AllConsistent(t)
    requires borrower.Some? && program.Some? && date.Some?
    ensures AllConsistent(Borrow(t, id, borrower, program, date))
  {
  }

  lemma ReturnPreservesConsistency(t: Table, id: Int32)
    requires AllConsistent(t)
    ensures AllConsistent(Return(t, id))
  {
  }

  lemma DeletePreservesConsistency(t: Table, id: Int32)
    requires AllConsistent(t)
    ensures AllConsistent(Delete(t, id))
  {
  }

  /** Without the non-null condition the borrow can leave a Borrowed row with
      no borrower data: the statement itself does not prevent it. */
  lemma BorrowWithNullsBreaksConsistency(t: Table, id: Int32)
    requires id in t
    ensures !Consistent(Borrow(t, id, None, None, None)[id])
  {
  }
}
