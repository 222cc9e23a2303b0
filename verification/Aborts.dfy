/** When a batch is rolled back: the exact condition on memory, the entries and what SQLite refuses. */
module Aborts {
  import opened IdSets
  import opened Results
  import opened LogTable
  import opened Dictionary
  import opened Writer
  import opened Storage

  datatype ColumnText = ColumnText(column: string, text: string)

  /** The texts of an entry that reach the dictionary: those of compressed columns that come before a missing
      required value. */
  function TextsOf(cat: Catalog, cols: seq<Column>, entry: LogEntry): set<ColumnText> {
    if cols == [] then {}
    else
      var init := cols[..|cols| - 1];
      TextsOf(cat, init, entry)
      + if LacksRequired(entry, init) then {} else ColumnTexts(cat, cols[|cols| - 1], entry)
  }

  function ColumnTexts(cat: Catalog, c: Column, entry: LogEntry): set<ColumnText> {
    var raw := Raw(entry, c.name);
    if c.name in cat.compressed && raw != JNull then {ColumnText(c.name, StoredText(raw))} else {}
  }

  function BatchTexts(cat: Catalog, cols: seq<Column>, entries: seq<LogEntry>): set<ColumnText> {
    if entries == [] then {}
    else BatchTexts(cat, cols, entries[..|entries| - 1]) + TextsOf(cat, cols, entries[|entries| - 1])
  }

  predicate Knows(lookup: Lookup, p: ColumnText) { p.column in lookup && p.text in lookup[p.column] }

  function New(lookup: Lookup, texts: set<ColumnText>): set<ColumnText> { set p | p in texts && !Knows(lookup, p) }

  /** The batch cannot be committed: BEGIN or COMMIT fails, one of its entries raises, or it brings more new texts
      than SQLite takes. */
  predicate Fails(lookup: Lookup, cat: Catalog, entries: seq<LogEntry>, faults: Faults) {
    && cat.DataColumns() != [] && entries != []
    && (|| faults.beginFails || faults.commitFails || faults.throwsAt < |entries|
        || |New(lookup, BatchTexts(cat, cat.DataColumns(), entries))| > faults.persistBudget)
  }

  // ── What a transaction learns ──────────────────────────────────────────────

  /** Memory learnt exactly these texts, each new one at the price of one dictionary insert. */
  ghost predicate Learnt(begun: Tx, tx: Tx, texts: set<ColumnText>) {
    && (forall p :: Knows(tx.lookup, p) <==> Knows(begun.lookup, p) || p in texts)
    && tx.budget + |New(begun.lookup, texts)| == begun.budget
  }

  lemma OneMoreText(lookup: Lookup, texts: set<ColumnText>, p: ColumnText)
    ensures |New(lookup, texts + {p})| == |New(lookup, texts)| + if Knows(lookup, p) || p in texts then 0 else 1
  {
    if Knows(lookup, p) || p in texts {
      assert New(lookup, texts + {p}) == New(lookup, texts);
    } else {
      assert New(lookup, texts + {p}) == New(lookup, texts) + {p};
    }
  }

  lemma MoreTexts(lookup: Lookup, texts: set<ColumnText>, more: set<ColumnText>)
    requires texts <= more
    ensures |New(lookup, texts)| <= |New(lookup, more)|
  {
    var rest := New(lookup, more) - New(lookup, texts);
    assert New(lookup, more) == New(lookup, texts) + rest;
  }

  lemma AssignKnows(tx: Tx, column: string, value: string, kept: string, p: ColumnText)
    ensures var a := Assign(tx, column, value, kept);
            Knows(a.tx.lookup, p) <==> Knows(tx.lookup, p) || (a.id.Some? && p == ColumnText(column, value))
  {
    hide NextValueId;
  }

  /** An assignment learns its text, or fails because the budget is used up and the text is new. */
  lemma AssignCosts(begun: Tx, tx: Tx, texts: set<ColumnText>, column: string, value: string, kept: string)
    requires Learnt(begun, tx, texts)
    ensures var a, more := Assign(tx, column, value, kept), texts + {ColumnText(column, value)};
            if a.id.Some? then Learnt(begun, a.tx, more) else |New(begun.lookup, more)| > begun.budget
  {
    var p := ColumnText(column, value);
    OneMoreText(begun.lookup, texts, p);
    assert Knows(tx.lookup, p) <==> value in Known(tx.lookup, column);
    forall q ensures Knows(Assign(tx, column, value, kept).tx.lookup, q) <==>
                       Knows(tx.lookup, q) || (Assign(tx, column, value, kept).id.Some? && q == p) {
      AssignKnows(tx, column, value, kept, q);
    }
    hide NextValueId, New, Knows;
  }

  lemma ColumnAddsTexts(texts: set<ColumnText>, cat: Catalog, cols: seq<Column>, entry: LogEntry)
    requires cols != []
    ensures var init, c := cols[..|cols| - 1], cols[|cols| - 1];
            texts + TextsOf(cat, cols, entry) ==
              if LacksRequired(entry, init) then texts + TextsOf(cat, init, entry)
              else texts + TextsOf(cat, init, entry) + ColumnTexts(cat, c, entry)
  {
    hide ColumnTexts, LacksRequired;
  }

  /** Encoding a row learns the texts of its entry, or fails because the budget does not suffice for them. */
  lemma {:induction false} RowCosts(begun: Tx, tx: Tx, texts: set<ColumnText>, cat: Catalog, cols: seq<Column>,
                                    entry: LogEntry)
    requires Learnt(begun, tx, texts)
    ensures var e, more := EncodeRow(tx, cat, cols, entry), texts + TextsOf(cat, cols, entry);
            if e.outcome.Failed? then |New(begun.lookup, more)| > begun.budget else Learnt(begun, e.tx, more)
  {
    if cols == [] {
      assert texts + {} == texts;
    } else {
      var k := |cols| - 1;
      ColumnAddsTexts(texts, cat, cols, entry);
      hide Learnt, New, LacksRequired, EncodeColumn, ColumnTexts, TextsOf;
      RowCosts(begun, tx, texts, cat, cols[..k], entry);
      OutcomeTells(tx, cat, cols[..k], entry);
      var e, done := EncodeRow(tx, cat, cols[..k], entry), texts + TextsOf(cat, cols[..k], entry);
      if e.outcome.Failed? {
        MoreTexts(begun.lookup, done, texts + TextsOf(cat, cols, entry));
      } else if e.outcome.Encoded? {
        ColumnCosts(begun, e.tx, done, cat, e.outcome.row, cols[k], entry);
      }
    }
  }

  lemma ColumnCosts(begun: Tx, tx: Tx, texts: set<ColumnText>, cat: Catalog, row: Row, c: Column, entry: LogEntry)
    requires Learnt(begun, tx, texts)
    ensures var e, more := EncodeColumn(tx, row, cat, c, entry), texts + ColumnTexts(cat, c, entry);
            if e.outcome.Failed? then |New(begun.lookup, more)| > begun.budget else Learnt(begun, e.tx, more)
  {
    var text := StoredText(Raw(entry, c.name));
    AssignCosts(begun, tx, texts, c.name, text, cat.Kept(text));
    hide Assign, Learnt, New, StoredText, Catalog.Kept;
    assert texts + {} == texts;
  }

  /** A batch that has not failed has learnt the texts of its entries; one that has could not. */
  lemma {:induction false} EntriesCost(begun: Batch, cat: Catalog, cols: seq<Column>, entries: seq<LogEntry>,
                                       faults: Faults)
    requires begun.fates == [] && !begun.failed
    ensures var b, texts := InsertEntries(begun, cat, cols, entries, faults), BatchTexts(cat, cols, entries);
            if b.failed then faults.throwsAt < |entries| || |New(begun.tx.lookup, texts)| > begun.tx.budget
            else faults.throwsAt >= |entries| && |b.fates| == |entries| && Learnt(begun.tx, b.tx, texts)
  {
    if entries != [] {
      var k := |entries| - 1;
      EntriesCost(begun, cat, cols, entries[..k], faults);
      var before, done := InsertEntries(begun, cat, cols, entries[..k], faults), BatchTexts(cat, cols, entries[..k]);
      var texts := BatchTexts(cat, cols, entries);
      assert texts == done + TextsOf(cat, cols, entries[k]);
      MoreTexts(begun.tx.lookup, done, texts);
      hide EncodeRow, NextRowId, Learnt, New, TextsOf;
      if !before.failed {
        RowCosts(begun.tx, before.tx, done, cat, cols, entries[k]);
      }
    } else {
      assert New(begun.tx.lookup, {}) == {};
    }
  }

  /** An Insert is rolled back if and only if its batch fails. */
  lemma AbortsExactlyWhen(t: Tables, lookup: Lookup, cat: Catalog, entries: seq<LogEntry>, faults: Faults)
    ensures InsertBatch(t, lookup, cat, entries, faults).Aborted? <==> Fails(lookup, cat, entries, faults)
  {
    EntriesCost(Begun(t, lookup, faults), cat, cat.DataColumns(), entries, faults);
    hide InsertEntries, New, BatchTexts;
  }

  /** Whatever becomes of an Insert, the texts memory learns are among those of its entries. */
  lemma {:induction false} OnlyBatchTextsAreLearnt(begun: Batch, cat: Catalog, cols: seq<Column>,
                                                   entries: seq<LogEntry>, faults: Faults, p: ColumnText)
    ensures Knows(InsertEntries(begun, cat, cols, entries, faults).tx.lookup, p) ==>
              Knows(begun.tx.lookup, p) || p in BatchTexts(cat, cols, entries)
  {
    if entries != [] {
      var k := |entries| - 1;
      OnlyBatchTextsAreLearnt(begun, cat, cols, entries[..k], faults, p);
      var before := InsertEntries(begun, cat, cols, entries[..k], faults);
      OnlyRowTextsAreLearnt(before.tx, cat, cols, entries[k], p);
      hide EncodeRow, NextRowId, Knows, TextsOf;
    }
  }

  lemma {:induction false} OnlyRowTextsAreLearnt(tx: Tx, cat: Catalog, cols: seq<Column>, entry: LogEntry,
                                                 p: ColumnText)
    ensures Knows(EncodeRow(tx, cat, cols, entry).tx.lookup, p) ==>
              Knows(tx.lookup, p) || p in TextsOf(cat, cols, entry)
  {
    if cols != [] {
      var k := |cols| - 1;
      OnlyRowTextsAreLearnt(tx, cat, cols[..k], entry, p);
      OutcomeTells(tx, cat, cols[..k], entry);
      var before, text := EncodeRow(tx, cat, cols[..k], entry), StoredText(Raw(entry, cols[k].name));
      AssignKnows(before.tx, cols[k].name, text, cat.Kept(text), p);
      hide Assign, Knows, LacksRequired, StoredText, Catalog.Kept;
    }
  }
}
