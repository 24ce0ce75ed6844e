/** The two tables `store_documents` writes, the identifiers the database
    generates for them, and a transaction over them. Generated identifiers
    come from counters that, like PostgreSQL sequences, are not restored by
    a rollback. */
module Database {

  /** A row of `documents(document_id, name, created_at)`. The timestamp is
      whatever clock value the caller read; it is kept opaque. */
  datatype DocumentRow = DocumentRow(documentId: nat, name: string, createdAt: int)

  /** The values inserted into `raw_pages`, in column order
      `(document_id, page_text, page_number, number_words, number_characters)`. */
  datatype PageValues = PageValues(
    documentId: nat,
    pageText: string,
    pageNumber: int,
    numberWords: int,
    numberCharacters: int)

  /** A row of `raw_pages`: the generated `text_id` and the inserted values. */
  datatype PageRow = PageRow(textId: nat, values: PageValues)

  /** The visible contents of the database, rows in insertion order. */
  datatype Tables = Tables(documents: seq<DocumentRow>, pages: seq<PageRow>)

  /** The database: its tables and the next identifier each sequence hands out. */
  datatype Store = Store(tables: Tables, nextDocumentId: nat, nextTextId: nat)

  /** An open transaction: the tables as of its start, and the store with
      the transaction's inserts applied. */
  datatype Transaction = Transaction(snapshot: Tables, work: Store)

  /** Some document in `t` has identifier `id`. */
  predicate HasDocument(t: Tables, id: nat) {
    exists j :: 0 <= j < |t.documents| && t.documents[j].documentId == id
  }

  /** Identifiers are below their sequence's next value and strictly
      increase in insertion order (hence are never reused), and every page
      row refers to an existing document. */
  predicate WellFormed(s: Store) {
    var docs := s.tables.documents;
    var pages := s.tables.pages;
    && (forall i :: 0 <= i < |docs| ==> docs[i].documentId < s.nextDocumentId)
    && (forall i, j :: 0 <= i < j < |docs| ==> docs[i].documentId < docs[j].documentId)
    && (forall i :: 0 <= i < |pages| ==> pages[i].textId < s.nextTextId)
    && (forall i, j :: 0 <= i < j < |pages| ==> pages[i].textId < pages[j].textId)
    && (forall i :: 0 <= i < |pages| ==> HasDocument(s.tables, pages[i].values.documentId))
  }

  /** The sequences of `t` are at least as far on as those of `s`. */
  predicate CountersAdvanced(s: Store, t: Store) {
    s.nextDocumentId <= t.nextDocumentId && s.nextTextId <= t.nextTextId
  }

  /** `t` is `s` with `suffix` appended to its page rows and nothing else
      changed apart from the text-id sequence. */
  predicate AppendedPages(s: Store, t: Store, suffix: seq<PageRow>) {
    && t.tables.documents == s.tables.documents
    && t.tables.pages == s.tables.pages + suffix
    && t.nextDocumentId == s.nextDocumentId
  }

  /** Opening a transaction. */
  function Begin(s: Store): (tx: Transaction)
    ensures Commit(tx) == s
    ensures Rollback(tx) == s
  {
    Transaction(s.tables, s)
  }

  /** `INSERT INTO documents (name, created_at) ... RETURNING document_id`. */
  function InsertDocument(tx: Transaction, name: string, createdAt: int): (r: (Transaction, nat))
    ensures r.0.snapshot == tx.snapshot
    ensures r.0.work.tables.pages == tx.work.tables.pages
    ensures r.0.work.tables.documents == tx.work.tables.documents + [DocumentRow(r.1, name, createdAt)]
    ensures r.1 == tx.work.nextDocumentId && r.0.work.nextDocumentId == r.1 + 1
    ensures r.0.work.nextTextId == tx.work.nextTextId
    ensures WellFormed(tx.work) ==> WellFormed(r.0.work) && !HasDocument(tx.work.tables, r.1)
  {
    var s := tx.work;
    var id := s.nextDocumentId;
    var t := Tables(s.tables.documents + [DocumentRow(id, name, createdAt)], s.tables.pages);
    var s' := Store(t, id + 1, s.nextTextId);
    assert WellFormed(s) ==> WellFormed(s') by {
      if WellFormed(s) {
        forall i | 0 <= i < |t.pages|
          ensures HasDocument(t, t.pages[i].values.documentId)
        {
          var d := t.pages[i].values.documentId;
          assert HasDocument(s.tables, d);
          var j :| 0 <= j < |s.tables.documents| && s.tables.documents[j].documentId == d;
          assert t.documents[j] == s.tables.documents[j];
        }
      }
    }
    (Transaction(tx.snapshot, s'), id)
  }

  /** `INSERT INTO raw_pages (...) VALUES (...)`. */
  function InsertPage(tx: Transaction, v: PageValues): (r: Transaction)
    ensures r.snapshot == tx.snapshot
    ensures AppendedPages(tx.work, r.work, [PageRow(tx.work.nextTextId, v)])
    ensures r.work.nextTextId == tx.work.nextTextId + 1
    ensures WellFormed(tx.work) && HasDocument(tx.work.tables, v.documentId) ==> WellFormed(r.work)
  {
    var s := tx.work;
    Transaction(tx.snapshot, Store(Tables(s.tables.documents, s.tables.pages + [PageRow(s.nextTextId, v)]), s.nextDocumentId, s.nextTextId + 1))
  }

  /** `conn.commit()`: the transaction's inserts become the database. */
  function Commit(tx: Transaction): Store {
    tx.work
  }

  /** `conn.rollback()`: the tables return to the snapshot; the sequences
      keep the values they reached. */
  function Rollback(tx: Transaction): Store {
    Store(tx.snapshot, tx.work.nextDocumentId, tx.work.nextTextId)
  }

  /** Rolling back after any number of inserts leaves a well-formed database
      well-formed: the sequences only moved forward, so no identifier still
      in the tables can be handed out again. */
  lemma RollbackKeepsWellFormed(s: Store, tx: Transaction)
    requires WellFormed(s) && tx.snapshot == s.tables && CountersAdvanced(s, tx.work)
    ensures WellFormed(Rollback(tx))
    ensures Rollback(tx).tables == s.tables
  {
  }
}
