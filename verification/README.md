# rag-tools ingestion core, modelled in Dafny

rag-tools reads a PDF page by page and stores the pages in PostgreSQL.
Two functions of `main.py` do the actual work:

- `read_pdf` turns the PDF library's per-page output into one record
  `{pageNumber, text, numCharacters, numWords}` per page. A missing text
  becomes `""`, every NUL becomes U+FFFD, and both counts are taken over the
  sanitised text. It is all-or-nothing: any exception, even one raised
  half-way through the pages, yields `[]`.
- `store_documents` does nothing for an empty page list. Otherwise it inserts
  one `documents` row, then one `raw_pages` row for each page with non-empty
  text, tagged with the new `document_id`, in input order. It commits on
  success and rolls back on any error.

The model replaces the foreign parts with plain values:

- The PDF library becomes a `PdfFile` value. Either the file cannot be opened
  or parsed (`Unreadable`), or each page extracts to a text, to `None`, or
  raises.
- The database becomes a `Store` value: two tables plus the two id sequences.
  A transaction is a snapshot of the tables plus a working copy, and commit
  and rollback are pure state transitions.
- Database errors are injected. An optional `Step` names the first statement
  that raises: the connect, the document insert, the `j`-th page insert, or
  the commit.
- The clock reading for `created_at` is an input.

Modules, one per concern, one file each:

| file | module | models |
|---|---|---|
| wrappers.dfy | `Wrappers` | `Option` (Python `None`) and `Result` |
| text.dfy | `Text` | Python's whitespace set, NUL replacement |
| words.dfy | `Words` | argument-less `str.split()` and a reference word count |
| extract.dfy | `Extract` | `read_pdf` |
| database.dfy | `Database` | the `documents` and `raw_pages` tables, the sequences, a transaction |
| persist.dfy | `Persist` | `store_documents` |

Main properties proved:

- `len(text.split())` equals the number of maximal runs of non-whitespace
  characters. The split words, joined, are exactly the non-whitespace
  characters.
- Sanitising leaves no NUL and keeps the length. It changes nothing but NULs,
  is idempotent, and changes no word count.
- `read_pdf` returns one correctly numbered and counted record per page, or
  `[]`. It never returns a partial list.
- A committed `store_documents` adds exactly one fresh document and one row per
  non-empty page, in input order, with the page's values in column order. Every
  other outcome leaves both tables as they were. An empty page list touches
  nothing at all, not even the id sequences.
- `store_documents` preserves well-formedness of the database: ids increase
  and are never reused, and every page row refers to an existing document.
- Fed `read_pdf`'s records, the stored page numbers increase. Page `p` is
  stored exactly when its text is non-empty.

## Model

| member | source | states |
|---|---|---|
| `Text.Sanitize` | main.py:43 | the result has the input's length, each NUL becomes U+FFFD and every other character stays in place unchanged, and no NUL is left |
| `Text.SanitizeIdempotent` | main.py:43 | sanitising an already sanitised text changes nothing |
| `Text.SanitizeFixesClean` | main.py:43 | a text without NUL comes out of the replacement unchanged |
| `Text.SanitizeKeepsSpaces` | main.py:43-46 | the replacement keeps every position's whitespace classification, because neither NUL nor U+FFFD is whitespace |
| `Words.SplitFrom` | main.py:46 | every word `split()` produces is non-empty and contains no whitespace, so leading, trailing and repeated whitespace produce no empty tokens |
| `Words.SplitCountsFrom` | main.py:46 | splitting from any position not inside a word yields as many words as start from there on |
| `Words.SplitCountsWords` | main.py:46 | `len(text.split())` equals the number of positions holding a non-whitespace character at the start or right after whitespace, i.e. the maximal non-whitespace runs |
| `Words.SplitFromKeepsLetters` | main.py:46 | the words split from a position, concatenated, are exactly the non-whitespace characters from there on, in order |
| `Words.SplitKeepsLetters` | main.py:46 | the words of `text.split()`, concatenated, are exactly the non-whitespace characters of `text`, in order |
| `Words.SanitizeKeepsWordCount` | main.py:43-46 | the word count (and `len(split())`) of the sanitised text equals that of the raw text |
| `Extract.RecordOf` | main.py:39-53 | the record of page `i` has page number `i + 1`, the sanitised text, its length and its run count; a `None` text yields `""` with both counts 0 |
| `Extract.ReadPages` | main.py:30-62 | success exactly when the file opens and no page raises, then one record per page in order; otherwise the open error or the error of the first page that raised |
| `Extract.ReadPdf` | main.py:17-64 | one correctly described record per page when nothing raises, otherwise `[]`; never a partial list |
| `Database.Begin` | main.py:80-88 | committing or rolling back a transaction that made no insert leaves the store as it was |
| `Database.InsertDocument` | main.py:93-98 | appends one document row with a fresh id (taken from its sequence, absent from a well-formed store) and keeps the store well-formed |
| `Database.InsertPage` | main.py:102-105 | appends one page row with the next text id, and keeps the store well-formed when the referenced document exists |
| `Database.RollbackKeepsWellFormed` | main.py:124-133 | rolling back restores the tables of the transaction's start and leaves a well-formed store well-formed |
| `Persist.NonEmptyCountCountsKept` | main.py:108-109 | the number of kept pages is the size of the set of positions whose page has non-empty text |
| `Persist.PageInserts` | main.py:107-116 | one tuple per page with non-empty text, each tagged with the one document id and carrying non-empty text |
| `Persist.PageInsertsSelect` | main.py:107-116 | the tuples are exactly the pages with non-empty text, in input order, each in column order (id, text, page number, words, characters) |
| `Persist.InsertPages` | main.py:118-119 | the insert loop appends every tuple with consecutive text ids unless a page insert raises, and reports exactly that fault |
| `Persist.StoreDocuments` | main.py:66-138 | it reports nothing to store exactly when the input is empty, and then touches nothing; a statement that raises makes it report that failure; it commits exactly when no statement raises, then adds one document with the next id and one row per non-empty page after the old rows; on any error the tables are unchanged; the id sequences never move back |
| `Persist.StoreDocumentsKeepsWellFormed` | main.py:66-138 | on a well-formed database the call leaves it well-formed (ids increasing and never reused, every page row owned by an existing document), and a committed document's id was not in use before |
| `Persist.StoreDocumentsWritesKeptPages` | main.py:97-121 | after a commit the new page rows follow the old ones and are, in order, the non-empty pages' values tagged with the new document id, with consecutive text ids |
| `Persist.StoredPagesFollowPageOrder` | main.py:48-53 | for pages numbered 1, 2, ... the stored page numbers strictly increase, and page `p` is stored exactly when its text is non-empty |

## Left out

- PDF parsing and `extract_text` (pypdf): replaced by the `PdfFile` and
  `PageSource` values. Which text a page yields is the library's business.
- The exception classes: `PdfReadError`, `FileNotFoundError` and "any other
  exception" become the three `ReadError` values. The printed message that
  tells them apart is not modelled.
- The psycopg connection, the SQL text, the cursor, and `close` in the
  `finally` block: I/O, replaced by the `Store` value and its transaction
  functions.
- `Persist.StoreDocuments`: when `conn.cursor()` itself raises, the `finally`
  block refers to an unassigned `cur` and raises out of `store_documents`. The
  model folds cursor creation into the `Connect` step and reports
  `Failed(Connect)` with the store unchanged. The tables are unchanged in the
  source as well.
- `Persist.StoreDocuments`: database errors and other exceptions are caught
  and printed (main.py:124-133). `store_documents` therefore returns `None`,
  unless cursor creation, the rollback or the close itself raises. The model
  returns an `Outcome` that mirrors the printed message.
- `Persist.StoreDocuments`: a `conn.rollback()` that raises inside an `except`
  handler (main.py:127, main.py:132) escapes `store_documents`, for example
  after the connection is lost. The model reports `Failed(step)` and restores
  the tables. In the source the tables end up unchanged as well, because
  PostgreSQL discards a transaction that was never committed.
- `Persist.StoreDocuments`: a `cur.close()` or `conn.close()` that raises in
  the `finally` block (main.py:136-137) also escapes. The model does not
  represent closing. The outcome and the tables it reports are those of the
  statements before the close.
- `Persist.StoreDocuments`: a statement that raises is assumed not to advance
  an id sequence. PostgreSQL may burn a sequence value there. Only counter
  values differ, and the tables are restored either way.
- Rollback restores the tables but not the id sequences, as PostgreSQL does.
  "Store unchanged" is therefore stated about the tables. Only the empty-input
  path leaves the whole store, sequences included, untouched.
- `datetime.now()`: the clock reading is the `createdAt` input.
- tqdm progress bars, `print` messages, dotenv, `PG_PASSWORD` and the
  connection constants (main.py:5-15): cosmetic or configuration.
- The `__main__` block (main.py:140-164): argv, `os.path.exists`,
  `basename` and `sys.exit` are process I/O.
- Retrieval of stored pages: main.py has no retrieval function, so there is
  nothing to model.
- `Text.IsSpace` is written out as the set of characters Python's `str.split()`
  treats as whitespace, not derived from the Unicode database. All split and
  count lemmas hold for any classification. Only the facts that NUL and U+FFFD
  are not whitespace use the concrete set.
- Python strings may hold lone surrogates, while Dafny characters are Unicode
  scalar values, so such strings are not representable.
- Records missing a key (a `KeyError` on `page_info['text']`) cannot occur,
  because the records are typed.
