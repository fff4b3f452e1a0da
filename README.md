# Library circulation: the `books` table and its statements

This project models the circulation core of a small library desktop tool.
`DatabaseHandler` keeps the catalogue in one SQLite table, `books`. Its static
methods each run a single SQL statement against that table:

- `addBook` inserts a book as Available with no borrower data.
- `borrowBook` marks a book Borrowed and records the borrower's name, program and date.
- `returnBook` marks it Available again and clears those three columns.
- `removeBook` deletes the row.
- `searchAndLoadTable` lists the books whose name, author or id is `LIKE '%keyword%'`.

The model has three modules:

- `Sql` (sql.dfy) gives the SQL value semantics the statements rely on. It has nullable values (`Option`), Java's 32-bit `int`, SQLite's LIKE operator and the decimal text of an INTEGER. LIKE is modelled for texts and patterns without NUL characters: `%` and `_` are wildcards, and only ASCII letters fold case. For a keyword without wildcards, `%k%` is proved to mean "contains `k`, ignoring ASCII case" (`LikeContains`).
- `Books` (books.dfy) holds the table as a `map` from the INTEGER PRIMARY KEY `id` to a `Book`. Each statement is a function on that map: `Insert`, `Borrow`, `Return` and `Delete`. A statement that raises an SQLException is caught and only printed, so a failing statement leaves the map as it was. The search is `SearchResult`, a set of five-column `Row`s. This module also holds the lemmas about the statements: return idempotence, borrow-then-return, delete-then-add, and preservation of the status/borrower consistency invariant.
- `DatabaseHandler` (database_handler.dfy) is the class `Library`. Its field `books` is the persistent table, and each operation is a method that updates the field in place. Each method's postcondition ties the new table to the matching `Books` function. `SearchAndLoadTable` is the source's `while (rs.next())` loop. It appends one projected row per selected book and is proved to return exactly `SearchResult`, with no id twice.

The schema the code declares fixes what the model has to cover:

- `id` is `INTEGER PRIMARY KEY` (src/main/java/DatabaseHandler.java:15). The search compares it with LIKE through its decimal text (:45).
- `name` is `NOT NULL` (:16). An `addBook` with a null name therefore fails, just as one with a duplicate id does.
- The search tests `name`, `author` and `id` only (:45).
- The table has exactly the columns `id`, `name`, `author`, `year`, `status`, `borrower_name`, `program` and `borrow_date` (:14-22). It has no genre, due-date or borrower-id column. Status/borrower consistency therefore concerns `borrower_name`, `program` and `borrow_date`.

The `status` column is TEXT, but the code only ever writes `'Available'` and `'Borrowed'`. The model therefore uses a two-valued `Status` datatype.

## Model

| member | source | states |
|---|---|---|
| `Sql.Fold` | src/main/java/DatabaseHandler.java:45 | LIKE's case folding sends each ASCII capital to the letter 32 code points above it (its lower-case form), leaves every other character alone, and never yields a capital |
| `Sql.FoldEqual` | src/main/java/DatabaseHandler.java:45 | two characters fold alike if and only if they are equal or are one ASCII letter in its upper- and lower-case forms |
| `Sql.OccursAtFront` | src/main/java/DatabaseHandler.java:45 | a keyword occurs at the start of a text exactly when the first characters fold alike and the rest of the keyword occurs at the start of the rest of the text |
| `Sql.Like` | src/main/java/DatabaseHandler.java:45 | SQLite's LIKE with `%` and `_` as wildcards: a pattern without wildcards matches exactly the texts of its length equal to it up to ASCII case, and a non-empty pattern made only of `%` matches every text |
| `Sql.LikeNullable` | src/main/java/DatabaseHandler.java:45 | LIKE on a nullable column inside WHERE: a NULL value is never selected, whatever the pattern; a non-NULL value is selected by a pattern of `%` only |
| `Sql.DecimalText` | src/main/java/DatabaseHandler.java:45 | the text an INTEGER id is compared as under `id LIKE ?`: non-empty, a leading `-` exactly for negative ids followed by at least one digit, only digits after that sign, no leading zero, so it never holds a wildcard |
| `Sql.NatTextRoundTrip` | src/main/java/DatabaseHandler.java:45 | reading the decimal digits of a number back gives that number |
| `Sql.DecimalTextRoundTrip` | src/main/java/DatabaseHandler.java:45 | the digits of an id's text, read back, give the id's absolute value, so the text is the id's own decimal rendering |
| `Sql.DecimalTextInjective` | src/main/java/DatabaseHandler.java:45 | two ids with the same decimal text are the same id |
| `Sql.LikeLiteralPrefix` | src/main/java/DatabaseHandler.java:50 | a wildcard-free part at the start of a pattern must match the start of the text literally, up to ASCII case, and the rest of the pattern must match the rest of the text |
| `Sql.LikeLeadingPercent` | src/main/java/DatabaseHandler.java:50 | a leading `%` matches exactly when the rest of the pattern matches some suffix of the text |
| `Sql.LikeContains` | src/main/java/DatabaseHandler.java:50 | for a keyword without `%` or `_`, `s LIKE '%'+k+'%'` holds if and only if `s` contains `k` ignoring ASCII case |
| `Books.NewBook` | src/main/java/DatabaseHandler.java:32 | the inserted row has the given name, author and year, status Available and no borrower data, so it is consistent |
| `Books.InsertFails` | src/main/java/DatabaseHandler.java:15-16 | the insert fails whenever the id is already present (primary key, :15) or the name is null (NOT NULL, :16); when it does not fail, the name is non-null and the id is not yet in the table |
| `Books.Insert` | src/main/java/DatabaseHandler.java:32-41 | on a fresh id with a non-null name, exactly one row is added (the row count grows by one) and every other row is kept; on a duplicate id (primary key, :15) or a null name (NOT NULL, :16) the table is unchanged |
| `Books.Borrow` | src/main/java/DatabaseHandler.java:72-81 | on a present id, only that row changes: status Borrowed and the three borrower columns set to the given values, with name, author and year kept; the current status is not checked; on an absent id nothing changes; the key set never changes |
| `Books.Return` | src/main/java/DatabaseHandler.java:86-92 | on a present id, only that row changes, to Available with the borrower columns null and name, author and year kept; on an absent id nothing changes |
| `Books.Delete` | src/main/java/DatabaseHandler.java:96-102 | exactly the row with that id disappears (none when absent, so the row count drops by one only for a present id) and the remaining rows are unchanged |
| `Books.Pattern` | src/main/java/DatabaseHandler.java:50-52 | the bound pattern is the keyword between a leading and a trailing `%`; a null keyword is concatenated as the text `null` |
| `Books.Selected` | src/main/java/DatabaseHandler.java:45 | the WHERE clause `name LIKE ? OR author LIKE ? OR id LIKE ?` for one row: a NULL author drops out of the OR, leaving name and id, and a pattern of `%` only selects every row |
| `Books.Project` | src/main/java/DatabaseHandler.java:56-61 | a shown row carries the book's id, name, author, year and status, and nothing else |
| `Books.SearchResult` | src/main/java/DatabaseHandler.java:45-62 | a row is shown exactly for the books whose name, non-null author or id text is LIKE the pattern, each as its projection |
| `Books.SelectedIffContains` | src/main/java/DatabaseHandler.java:45-52 | for a keyword without wildcards, the WHERE clause holds if and only if the name, the non-null author or the id text contains the keyword, ignoring ASCII case |
| `Books.SearchFindsSubstring` | src/main/java/DatabaseHandler.java:44-62 | for a keyword without wildcards, a book is shown if and only if its name, author or id contains the keyword, ignoring ASCII case |
| `Books.EmptyKeywordSelectsAll` | src/main/java/DatabaseHandler.java:50-52 | the empty keyword shows every book |
| `Books.SearchIgnoresBorrowerColumns` | src/main/java/DatabaseHandler.java:56-61 | tables that differ only in the borrower columns give the same search result |
| `Books.ReturnIdempotent` | src/main/java/DatabaseHandler.java:86 | returning a book twice gives the same table as returning it once |
| `Books.BorrowThenReturnRestores` | src/main/java/DatabaseHandler.java:72-86 | borrowing an Available, consistent book and then returning it gives back the original table |
| `Books.BorrowThenReturnIsReturn` | src/main/java/DatabaseHandler.java:72-86 | for any row, borrow followed by return equals a plain return, so the non-borrower columns survive |
| `Books.BorrowOverwritesBorrowed` | src/main/java/DatabaseHandler.java:72 | borrowing an already Borrowed book replaces the previous borrower's name, program and date |
| `Books.DeleteThenInsertSucceeds` | src/main/java/DatabaseHandler.java:96-99 | after a delete, adding a book with the same id and a non-null name succeeds and yields the new Available row |
| `Books.DuplicateInsertKeepsRow` | src/main/java/DatabaseHandler.java:15 | an insert on an id already present leaves that row unmodified |
| `Books.InsertPreservesConsistency` | src/main/java/DatabaseHandler.java:32 | if every row is consistent before an insert, every row is consistent after it |
| `Books.BorrowPreservesConsistency` | src/main/java/DatabaseHandler.java:72 | if every row is consistent and the borrower name, program and date are all non-null, every row is consistent after the borrow |
| `Books.ReturnPreservesConsistency` | src/main/java/DatabaseHandler.java:86 | if every row is consistent before a return, every row is consistent after it |
| `Books.DeletePreservesConsistency` | src/main/java/DatabaseHandler.java:96 | if every row is consistent before a delete, every row is consistent after it |
| `Books.BorrowWithNullsBreaksConsistency` | src/main/java/DatabaseHandler.java:72-77 | a borrow with null borrower values leaves a Borrowed row with no borrower data; the statement itself does not prevent it |
| `DatabaseHandler.Library.constructor` | src/main/java/DatabaseHandler.java:12-22 | a freshly created database has an empty `books` table |
| `DatabaseHandler.Library.AddBook` | src/main/java/DatabaseHandler.java:31-42 | the table becomes `Insert` of the old table, so a failed insert changes nothing; consistency is kept |
| `DatabaseHandler.Library.SearchAndLoadTable` | src/main/java/DatabaseHandler.java:44-68 | the returned rows are exactly the set `SearchResult` of the current table, with no id twice |
| `DatabaseHandler.Library.BorrowBook` | src/main/java/DatabaseHandler.java:71-82 | the table becomes `Borrow` of the old table; consistency is kept when the three borrower values are non-null |
| `DatabaseHandler.Library.ReturnBook` | src/main/java/DatabaseHandler.java:85-93 | the table becomes `Return` of the old table; consistency is kept |
| `DatabaseHandler.Library.RemoveBook` | src/main/java/DatabaseHandler.java:95-103 | the table becomes `Delete` of the old table; consistency is kept |
| `DatabaseHandler.CirculationScenario` | src/main/java/DatabaseHandler.java:72-89 | a caller that borrows an Available book with consistent columns, returns it and returns it again ends with the table it started with |

## Left out

- The JDBC connection (`connect`, the `jdbc:sqlite:library_db.db` URL) and the `System.out` error messages are I/O. A failing statement is modelled only by its effect, which is that the table is unchanged. The four writing methods (`AddBook`, `BorrowBook`, `ReturnBook`, `RemoveBook`) return nothing, as in the source; `SearchAndLoadTable` returns its rows (see the Swing item below).
- Statement failures other than the key and NOT NULL constraints are not modelled. These are a missing database file, a locked database and I/O errors, and they come from the environment.
- `initializeDatabase` runs `CREATE TABLE IF NOT EXISTS`. The model only gives the empty table it creates on a new database, together with the key and NOT NULL constraints it declares. Re-running it on an existing database leaves the rows alone, and that is not modelled as an operation.
- The Swing rendering (`DefaultTableModel`, `table.setModel`) is left out. `SearchAndLoadTable` returns the rows instead of installing them in a widget. When the search fails, the source keeps the widget's old model. The model has no search failure, so this case is not modelled.
- `Library.SearchAndLoadTable` does not fix the order of its result. The SELECT has no ORDER BY, so the model promises membership and no duplicates only.
- SQLite reads the operands of LIKE as NUL-terminated strings, so a text or pattern holding U+0000 is compared only up to that character. `Sql.Like` compares the whole text and pattern, so it agrees with SQLite only on texts and patterns without NUL.
- SQLite's limit on LIKE pattern length is not modelled. LIKE is modelled on Dafny characters, which are Unicode scalar values, and not on UTF-8 bytes. The two agree for `_`, which matches one character.
- The code has no users, registration, login or session, no due dates or days-remaining text, no list views by status, and no sorting of result rows. None of these are modelled.
