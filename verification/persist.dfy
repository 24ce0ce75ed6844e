/** `store_documents`: one document row and one `raw_pages` row per page
    with non-empty text, written in a single transaction that is committed
    on success and rolled back on any error. Database failures are injected
    by naming the first statement that raises. */
module Persist {
  import opened Wrappers
  import opened Extract
  import opened Database

  /** The statements `store_documents` runs, in order. `InsertPageStep(j)`
      is the insert of the `j`-th row that survives the empty-text filter. */
  datatype Step = Connect | InsertDocumentStep | InsertPageStep(index: nat) | CommitStep

  /** What the call reports: nothing to store, the stored document's id,
      or the statement whose error made it give up. */
  datatype Outcome = NothingToStore | Stored(documentId: nat) | Failed(step: Step)

  /** The row tuple for one page, in `raw_pages` column order. */
  function PageValuesOf(documentId: nat, p: PageRecord): PageValues {
    PageValues(documentId, p.text, p.pageNumber, p.numWords, p.numCharacters)
  }

  /** The positions of the pages with non-empty text. */
  ghost function KeptPositions(pages: seq<PageRecord>): set<nat> {
    set i: nat | i < |pages| && pages[i].text != ""
  }

  /** Every element of `s` moved up by one. */
  ghost function ShiftSet(s: set<nat>): set<nat> {
    set i | i in s :: i + 1
  }

  /** Moving every element up by one keeps the size of a set. */
  lemma {:induction false} ShiftSetSize(s: set<nat>)
    ensures |ShiftSet(s)| == |s|
    decreases |s|
  {
    if s != {} {
      var x :| x in s;
      var t := s - {x};
      ShiftSetSize(t);
      forall y | y in ShiftSet(s)
        ensures y in ShiftSet(t) + {x + 1}
      {
        var i :| i in s && y == i + 1;
        if i != x {
          assert i in t;
        }
      }
      forall y | y in ShiftSet(t) + {x + 1}
        ensures y in ShiftSet(s)
      {
        if y == x + 1 {
          assert x in s;
        } else {
          var i :| i in t && y == i + 1;
          assert i in s;
        }
      }
      assert ShiftSet(s) == ShiftSet(t) + {x + 1};
      assert x + 1 !in ShiftSet(t);
    }
  }

  /** The kept positions of a non-empty list: possibly its first page,
      and the kept positions of the rest moved up by one. */
  lemma KeptPositionsCons(pages: seq<PageRecord>)
    requires pages != []
    ensures KeptPositions(pages)
      == (if pages[0].text != "" then {0} else {}) + ShiftSet(KeptPositions(pages[1..]))
    ensures 0 !in ShiftSet(KeptPositions(pages[1..]))
  {
    var shifted := ShiftSet(KeptPositions(pages[1..]));
    forall i: nat
      ensures i in KeptPositions(pages) && i > 0 <==> i in shifted
    {
      if i > 0 && i < |pages| {
        assert pages[i] == pages[1..][i - 1];
        var j: nat := i - 1;
        if pages[i].text != "" {
          assert j in KeptPositions(pages[1..]);
          assert j + 1 in shifted;
        }
      }
      if i in shifted {
        var j :| j in KeptPositions(pages[1..]) && i == j + 1;
        assert pages[1..][j] == pages[i];
      }
    }
  }

  /** How many pages have non-empty text. */
  function NonEmptyCount(pages: seq<PageRecord>): nat {
    if pages == [] then 0
    else (if pages[0].text != "" then 1 else 0) + NonEmptyCount(pages[1..])
  }

  /** `NonEmptyCount` is the number of positions holding a page with
      non-empty text. */
  lemma {:induction false} NonEmptyCountCountsKept(pages: seq<PageRecord>)
    ensures NonEmptyCount(pages) == |KeptPositions(pages)|
    decreases |pages|
  {
    if pages != [] {
      NonEmptyCountCountsKept(pages[1..]);
      ShiftSetSize(KeptPositions(pages[1..]));
      KeptPositionsCons(pages);
    }
  }

  /** The `page_records` list: one tuple per page whose text is non-empty,
      all tagged with `documentId`. */
  function PageInserts(documentId: nat, pages: seq<PageRecord>): (rows: seq<PageValues>)
    ensures |rows| == NonEmptyCount(pages)
    ensures forall j :: 0 <= j < |rows| ==> rows[j].documentId == documentId && rows[j].pageText != ""
  {
    if pages == [] then []
    else
      (if pages[0].text != "" then [PageValuesOf(documentId, pages[0])] else [])
      + PageInserts(documentId, pages[1..])
  }

  /** The page rows the database creates for `rows`, with text ids handed
      out consecutively from `start`. */
  function Numbered(rows: seq<PageValues>, start: nat): (numbered: seq<PageRow>)
    ensures |numbered| == |rows|
  {
    seq(|rows|, j requires 0 <= j < |rows| => PageRow(start + j, rows[j]))
  }

  /** The fault hits one of the `n` page inserts numbered from `first`. */
  predicate HitsPageInsert(fault: Option<Step>, first: nat, n: nat) {
    fault.Some? && fault.value.InsertPageStep? && first <= fault.value.index < first + n
  }

  /** No statement raises when `k` page rows are inserted. */
  predicate Unfaulted(fault: Option<Step>, k: nat) {
    fault.None? || (fault.value.InsertPageStep? && fault.value.index >= k)
  }

  /** The insert loop: executes the row inserts numbered from `first` in
      order, stopping at the first one that raises. */
  function InsertPages(tx: Transaction, rows: seq<PageValues>, first: nat, fault: Option<Step>)
    : (r: (Transaction, Option<Step>))
    ensures r.0.snapshot == tx.snapshot
    ensures CountersAdvanced(tx.work, r.0.work)
    ensures r.1.Some? <==> HitsPageInsert(fault, first, |rows|)
    ensures r.1.Some? ==> r.1 == fault
    ensures r.1.None? ==> AppendedPages(tx.work, r.0.work, Numbered(rows, tx.work.nextTextId))
    ensures WellFormed(tx.work) && (forall j :: 0 <= j < |rows| ==> HasDocument(tx.work.tables, rows[j].documentId))
      ==> WellFormed(r.0.work)
    decreases |rows|
  {
    if rows == [] then (tx, None)
    else if fault == Some(InsertPageStep(first)) then (tx, fault)
    else
      var tx' := InsertPage(tx, rows[0]);
      assert forall j :: 0 <= j < |rows| && HasDocument(tx.work.tables, rows[j].documentId) ==>
        HasDocument(tx'.work.tables, rows[j].documentId);
      var r := InsertPages(tx', rows[1..], first + 1, fault);
      assert r.1.None? ==>
        Numbered(rows, tx.work.nextTextId) == [PageRow(tx.work.nextTextId, rows[0])] + Numbered(rows[1..], tx'.work.nextTextId);
      r
  }

  /** `store_documents(file_name, pages)` against `store`, with the clock
      reading `createdAt` and `fault` naming the first statement that
      raises, if any. */
  function StoreDocuments(store: Store, fileName: string, createdAt: int, pages: seq<PageRecord>, fault: Option<Step>)
    : (r: (Store, Outcome))
    ensures |pages| == 0 ==> r == (store, NothingToStore)
    ensures r.1.NothingToStore? <==> |pages| == 0
    ensures |pages| > 0 && !Unfaulted(fault, NonEmptyCount(pages)) ==> r.1.Failed?
    ensures r.1.Stored? <==> |pages| > 0 && Unfaulted(fault, NonEmptyCount(pages))
    ensures r.1.Failed? ==> fault == Some(r.1.step)
    ensures !r.1.Stored? ==> r.0.tables == store.tables
    ensures r.1.Stored? ==>
      && |r.0.tables.documents| == |store.tables.documents| + 1
      && |r.0.tables.pages| == |store.tables.pages| + NonEmptyCount(pages)
      && r.0.tables.documents == store.tables.documents + [DocumentRow(r.1.documentId, fileName, createdAt)]
      && r.0.tables.pages == store.tables.pages + Numbered(PageInserts(r.1.documentId, pages), store.nextTextId)
    ensures r.1.Stored? ==> r.1.documentId == store.nextDocumentId
    ensures CountersAdvanced(store, r.0)
  {
    if |pages| == 0 then (store, NothingToStore)
    else if fault == Some(Connect) then (store, Failed(Connect))
    else
      var tx := Begin(store);
      if fault == Some(InsertDocumentStep) then (Rollback(tx), Failed(InsertDocumentStep))
      else
        var (tx1, id) := InsertDocument(tx, fileName, createdAt);
        var rows := PageInserts(id, pages);
        var (tx2, failed) := InsertPages(tx1, rows, 0, fault);
        if failed.Some? then (Rollback(tx2), Failed(failed.value))
        else if fault == Some(CommitStep) then (Rollback(tx2), Failed(CommitStep))
        else
          assert fault.Some? ==> fault.value.InsertPageStep? && fault.value.index >= |rows|;
          (Commit(tx2), Stored(id))
  }

  /** `store_documents` keeps the database well-formed, and a committed
      call's document id was not in use before. */
  lemma StoreDocumentsKeepsWellFormed(
    store: Store, fileName: string, createdAt: int, pages: seq<PageRecord>, fault: Option<Step>)
    requires WellFormed(store)
    ensures var r := StoreDocuments(store, fileName, createdAt, pages, fault);
      && WellFormed(r.0)
      && (r.1.Stored? ==> !HasDocument(store.tables, r.1.documentId))
  {
    if |pages| > 0 && fault != Some(Connect) && fault != Some(InsertDocumentStep) {
      var (tx1, id) := InsertDocument(Begin(store), fileName, createdAt);
      TransactionKeepsWellFormed(store, fileName, createdAt, tx1, id, PageInserts(id, pages), fault);
    }
  }

  /** After the document insert, the page inserts keep a well-formed store
      well-formed whether the transaction then commits or rolls back. */
  lemma TransactionKeepsWellFormed(
    store: Store, fileName: string, createdAt: int, tx1: Transaction, id: nat, rows: seq<PageValues>, fault: Option<Step>)
    requires WellFormed(store)
    requires (tx1, id) == InsertDocument(Begin(store), fileName, createdAt)
    requires forall j :: 0 <= j < |rows| ==> rows[j].documentId == id
    ensures WellFormed(InsertPages(tx1, rows, 0, fault).0.work)
    ensures WellFormed(Rollback(InsertPages(tx1, rows, 0, fault).0))
  {
    assert HasDocument(tx1.work.tables, id) by {
      var docs := tx1.work.tables.documents;
      assert docs[|docs| - 1].documentId == id;
    }
    var tx2 := InsertPages(tx1, rows, 0, fault).0;
    RollbackKeepsWellFormed(store, tx2);
  }

  /** `idx` lists, increasing, the positions of the pages with non-empty
      text, and `rows[j]` is the tuple of page `idx[j]`. */
  ghost predicate Selects(idx: seq<nat>, pages: seq<PageRecord>, documentId: nat, rows: seq<PageValues>) {
    && |idx| == |rows|
    && (forall j :: 0 <= j < |idx| ==> idx[j] < |pages| && rows[j] == PageValuesOf(documentId, pages[idx[j]]))
    && (forall j, k :: 0 <= j < k < |idx| ==> idx[j] < idx[k])
    && (forall i :: 0 <= i < |pages| ==> (pages[i].text != "" <==> i in idx))
  }

  /** Every position moved one page later. */
  function Shifted(idx: seq<nat>): (r: seq<nat>)
    ensures |r| == |idx|
    ensures forall j :: 0 <= j < |idx| ==> r[j] == idx[j] + 1
  {
    seq(|idx|, j requires 0 <= j < |idx| => idx[j] + 1)
  }

  lemma ShiftedMembers(idx: seq<nat>, n: nat)
    requires forall j :: 0 <= j < |idx| ==> idx[j] < n
    ensures forall i :: 0 < i <= n ==> (i in Shifted(idx) <==> i - 1 in idx)
    ensures 0 !in Shifted(idx)
  {
    var sh := Shifted(idx);
    forall i | 0 < i <= n
      ensures i in sh <==> i - 1 in idx
    {
      if i - 1 in idx {
        var j :| 0 <= j < |idx| && idx[j] == i - 1;
        assert sh[j] == i;
      }
    }
  }

  /** Putting a page with empty text in front of a selection. */
  lemma SelectsConsSkipped(idx: seq<nat>, p: PageRecord, pages: seq<PageRecord>, documentId: nat, rows: seq<PageValues>)
    requires Selects(idx, pages, documentId, rows)
    requires p.text == ""
    ensures Selects(Shifted(idx), [p] + pages, documentId, rows)
  {
    var all := [p] + pages;
    var sh := Shifted(idx);
    ShiftedMembers(idx, |pages|);
    forall j | 0 <= j < |sh|
      ensures sh[j] < |all| && rows[j] == PageValuesOf(documentId, all[sh[j]])
    {
      assert all[sh[j]] == pages[idx[j]];
    }
    forall i | 0 <= i < |all|
      ensures all[i].text != "" <==> i in sh
    {
      if i > 0 {
        assert all[i] == pages[i - 1];
      }
    }
  }

  /** Putting a page with non-empty text in front of a selection. */
  lemma SelectsConsKept(idx: seq<nat>, p: PageRecord, pages: seq<PageRecord>, documentId: nat, rows: seq<PageValues>)
    requires Selects(idx, pages, documentId, rows)
    requires p.text != ""
    ensures Selects([0] + Shifted(idx), [p] + pages, documentId, [PageValuesOf(documentId, p)] + rows)
  {
    var all := [p] + pages;
    var sh := Shifted(idx);
    var idx' := [0] + sh;
    var rows' := [PageValuesOf(documentId, p)] + rows;
    ShiftedMembers(idx, |pages|);
    forall j | 0 <= j < |idx'|
      ensures idx'[j] < |all| && rows'[j] == PageValuesOf(documentId, all[idx'[j]])
    {
      if j > 0 {
        assert idx'[j] == sh[j - 1] && rows'[j] == rows[j - 1];
        assert all[sh[j - 1]] == pages[idx[j - 1]];
      }
    }
    forall j, k | 0 <= j < k < |idx'|
      ensures idx'[j] < idx'[k]
    {
      assert idx'[k] == sh[k - 1];
      if j > 0 {
        assert idx'[j] == sh[j - 1];
      }
    }
    forall i | 0 <= i < |all|
      ensures all[i].text != "" <==> i in idx'
    {
      if i > 0 {
        assert all[i] == pages[i - 1];
        assert i in idx' <==> i in sh;
      }
    }
  }

  /** The `page_records` list holds exactly the pages with non-empty text,
      in input order: `idx` lists their positions, increasing. */
  lemma {:induction false} PageInsertsSelect(documentId: nat, pages: seq<PageRecord>) returns (idx: seq<nat>)
    ensures Selects(idx, pages, documentId, PageInserts(documentId, pages))
    decreases |pages|
  {
    if pages == [] {
      idx := [];
    } else {
      var rest := PageInsertsSelect(documentId, pages[1..]);
      assert [pages[0]] + pages[1..] == pages;
      if pages[0].text != "" {
        SelectsConsKept(rest, pages[0], pages[1..], documentId, PageInserts(documentId, pages[1..]));
        idx := [0] + Shifted(rest);
      } else {
        SelectsConsSkipped(rest, pages[0], pages[1..], documentId, PageInserts(documentId, pages[1..]));
        idx := Shifted(rest);
      }
    }
  }

  /** A committed `store_documents` appends, after the existing page rows,
      one row per page with non-empty text, in input order, each tagged
      with the new document's id and carrying that page's text, number and
      counts, with consecutive fresh text ids. */
  lemma StoreDocumentsWritesKeptPages(
    store: Store, fileName: string, createdAt: int, pages: seq<PageRecord>, fault: Option<Step>)
    returns (idx: seq<nat>)
    ensures var r := StoreDocuments(store, fileName, createdAt, pages, fault);
      var n := |store.tables.pages|;
      r.1.Stored? ==>
        && r.0.tables.pages[..n] == store.tables.pages
        && |r.0.tables.pages| == n + |idx|
        && (forall j :: 0 <= j < |idx| ==>
              && idx[j] < |pages|
              && r.0.tables.pages[n + j] == PageRow(store.nextTextId + j, PageValuesOf(r.1.documentId, pages[idx[j]])))
        && (forall j, k :: 0 <= j < k < |idx| ==> idx[j] < idx[k])
        && (forall i :: 0 <= i < |pages| ==> (pages[i].text != "" <==> i in idx))
  {
    var r := StoreDocuments(store, fileName, createdAt, pages, fault);
    if r.1.Stored? {
      idx := PageInsertsSelect(r.1.documentId, pages);
      var n := |store.tables.pages|;
      var rows := PageInserts(r.1.documentId, pages);
      AppendNumbered(store.tables.pages, rows, store.nextTextId, r.0.tables.pages);
    } else {
      idx := [];
    }
  }

  lemma AppendNumbered(before: seq<PageRow>, rows: seq<PageValues>, start: nat, now: seq<PageRow>)
    requires now == before + Numbered(rows, start)
    ensures now[..|before|] == before
    ensures |now| == |before| + |rows|
    ensures forall j :: 0 <= j < |rows| ==> now[|before| + j] == PageRow(start + j, rows[j])
  {
  }

  /** Page numbers 1, 2, ... carried, through a selection `idx`, into the
      rows after position `n` of `now` increase, and page `i + 1` is among
      them exactly when page `i` is selected. */
  lemma SelectedPageNumbers(now: seq<PageRow>, n: nat, idx: seq<nat>, pages: seq<PageRecord>, documentId: nat, start: nat)
    requires forall i :: 0 <= i < |pages| ==> pages[i].pageNumber == i + 1
    requires |now| == n + |idx|
    requires forall j :: 0 <= j < |idx| ==>
      idx[j] < |pages| && now[n + j] == PageRow(start + j, PageValuesOf(documentId, pages[idx[j]]))
    requires forall j, k :: 0 <= j < k < |idx| ==> idx[j] < idx[k]
    ensures forall j, k :: 0 <= j < k < |now[n..]| ==> now[n..][j].values.pageNumber < now[n..][k].values.pageNumber
    ensures forall i :: 0 <= i < |pages| ==>
      (i in idx <==> exists j :: 0 <= j < |now[n..]| && now[n..][j].values.pageNumber == i + 1)
  {
    var added := now[n..];
    assert forall j :: 0 <= j < |added| ==> added[j].values.pageNumber == idx[j] + 1 by {
      forall j | 0 <= j < |added|
        ensures added[j].values.pageNumber == idx[j] + 1
      {
        assert added[j] == now[n + j];
      }
    }
    forall i | 0 <= i < |pages|
      ensures i in idx <==> exists j :: 0 <= j < |added| && added[j].values.pageNumber == i + 1
    {
      if i in idx {
        var j :| 0 <= j < |idx| && idx[j] == i;
        assert added[j].values.pageNumber == i + 1;
      }
    }
  }

  /** Fed with `read_pdf`'s records (numbered 1, 2, ... in order), a
      committed `store_documents` writes page rows whose page numbers
      increase, so reading them back ordered by page number gives the
      insertion order; and page number `p` is written exactly when page `p`
      has non-empty text. */
  lemma StoredPagesFollowPageOrder(
    store: Store, fileName: string, createdAt: int, pages: seq<PageRecord>, fault: Option<Step>)
    requires forall i :: 0 <= i < |pages| ==> pages[i].pageNumber == i + 1
    ensures var r := StoreDocuments(store, fileName, createdAt, pages, fault);
      var added := r.0.tables.pages[|store.tables.pages|..];
      r.1.Stored? ==>
        && (forall j, k :: 0 <= j < k < |added| ==> added[j].values.pageNumber < added[k].values.pageNumber)
        && (forall i :: 0 <= i < |pages| ==>
              (pages[i].text != "" <==> exists j :: 0 <= j < |added| && added[j].values.pageNumber == i + 1))
  {
    var r := StoreDocuments(store, fileName, createdAt, pages, fault);
    var idx := StoreDocumentsWritesKeptPages(store, fileName, createdAt, pages, fault);
    if r.1.Stored? {
      SelectedPageNumbers(r.0.tables.pages, |store.tables.pages|, idx, pages, r.1.documentId, store.nextTextId);
    }
  }
}
