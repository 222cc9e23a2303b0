/** What a producer hands in is what a reader queries, whatever happened in between. */
module EndToEnd {
  import opened Results
  import opened IdSets
  import opened LogTable
  import opened Dictionary
  import W = Writer
  import opened Storage
  import opened Queries
  import opened Service
  import opened Accounting
  import opened Runs
  import opened Decoding

  // ── The tables a reader might expect ───────────────────────────────────────

  /** For each row an entry stored under its id, whose values the row holds. */
  ghost predicate Owners(s: State, owners: map<int, nat>, cat: Catalog) {
    && (forall id :: id in owners <==> id in s.tables.rows)
    && (forall id :: id in owners ==> RowOwned(s, cat, id, owners[id]))
  }

  lemma OwnersExist(s: State, cat: Catalog) returns (owners: map<int, nat>)
    requires StorageSound(s, cat)
    ensures Owners(s, owners, cat)
  {
    hide RowOwned;
    owners := map id | id in s.tables.rows :: OwnerOf(s, cat, id);
  }

  ghost function OwnerOf(s: State, cat: Catalog, id: int): (i: nat)
    requires exists i :: RowOwned(s, cat, id, i)
    ensures RowOwned(s, cat, id, i)
  {
    var i :| RowOwned(s, cat, id, i);
    i
  }

  /** The row an entry would have in a table without compression. */
  function OriginalRow(entry: LogEntry, row: Row): Row {
    map name | name in row :: Bound(W.Raw(entry, name))
  }

  /** The same, with numbers and booleans of compressed columns as their texts. */
  function DumpedRow(entry: LogEntry, row: Row, cat: Catalog): Row {
    map name | name in row ::
      var raw := W.Raw(entry, name);
      if name in cat.compressed && raw != JNull then Text(StoredText(raw)) else Bound(raw)
  }

  ghost function Originals(s: State, owners: map<int, nat>, cat: Catalog): map<int, Row>
    requires Owners(s, owners, cat)
  {
    map id | id in owners :: OriginalRow(s.arrivals[owners[id]], s.tables.rows[id])
  }

  ghost function Dumped(s: State, owners: map<int, nat>, cat: Catalog): map<int, Row>
    requires Owners(s, owners, cat)
  {
    map id | id in owners :: DumpedRow(s.arrivals[owners[id]], s.tables.rows[id], cat)
  }

  /** The entry's value for a column is a number or a boolean. */
  predicate Numeric(s: State, owners: map<int, nat>, id: int, name: string) {
    id in owners && owners[id] < |s.arrivals| && Bound(W.Raw(s.arrivals[owners[id]], name)).Int?
  }

  /** Present entries have only texts and nulls in compressed columns. */
  ghost predicate TextsOnly(s: State, owners: map<int, nat>, cat: Catalog) {
    forall id, name :: id in s.tables.rows && name in s.tables.rows[id] && name in cat.compressed ==>
      !Numeric(s, owners, id, name)
  }

  // ── The table stands for the dumped values ─────────────────────────────────

  lemma RowStandsForDumped(entry: LogEntry, row: Row, id: int, cat: Catalog, dict: seq<DictRow>, lookup: Lookup)
    requires RowFor(entry, row, cat, dict) && RowDecodes(entry, row, cat, lookup) && ID !in cat.compressed
    ensures RowStandsFor(row, DumpedRow(entry, row, cat), id, cat, lookup)
  {
    var plain := DumpedRow(entry, row, cat);
    forall column
      ensures CellStandsFor(CellOf(id, row, column), CellOf(id, plain, column), column, cat, lookup)
      ensures column in cat.compressed ==> !CellOf(id, plain, column).Int?
    {
      if column != ID && column in row {
        var c :| c in cat.DataColumns() && c.name == column;
        assert CellFor(entry, column, row[column], cat, dict);
        assert Bound(W.Raw(entry, column)) == Null <==> W.Raw(entry, column) == JNull;
      }
    }
  }

  lemma TableStandsForDumped(s: State, owners: map<int, nat>, cat: Catalog)
    requires StorageSound(s, cat) && Owners(s, owners, cat) && AllDecode(s, cat) && ID !in cat.compressed
    ensures Injective(s.lookup) && Encodes(s.tables.rows, Dumped(s, owners, cat), cat, s.lookup)
  {
    var plain := Dumped(s, owners, cat);
    forall id | id in plain ensures id in s.tables.rows
          && RowStandsFor(s.tables.rows[id], plain[id], id, cat, s.lookup) {
      assert RowOwned(s, cat, id, owners[id]);
      RowStandsForDumped(s.arrivals[owners[id]], s.tables.rows[id], id, cat, s.tables.dict, s.lookup);
    }
    hide RowStandsFor, Agrees, RowOwned, DumpedRow;
    forall id ensures id in s.tables.rows <==> id in plain {
      assert id in owners <==> id in plain;
    }
    assert s.tables.rows.Keys == plain.Keys by {
      Subset(s.tables.rows.Keys, plain.Keys);
      Subset(plain.Keys, s.tables.rows.Keys);
    }
  }

  // ── Queries ────────────────────────────────────────────────────────────────

  /** The filters are those the plain table can be asked, and order lists what they select there. */
  ghost predicate Asked(plain: map<int, Row>, cat: Catalog, filters: seq<Filter>, order: seq<int>) {
    && (forall f :: f in filters ==> TextComparison(f, cat))
    && WhereOf(filters, Uncompressed(cat), map[]).Ok?
    && Listing(order, plain, WhereOf(filters, Uncompressed(cat), map[]).value, cat.timestamp)
  }

  ghost predicate SameOn(s: State, plain: map<int, Row>, cat: Catalog, fields: seq<string>, filters: seq<Filter>,
                         limit: int, offset: int, order: seq<int>) {
    && Query(cat, s.lookup, s.tables.rows, fields, filters, limit, offset, order)
    == Query(Uncompressed(cat), map[], plain, fields, filters, limit, offset, order)
  }

  /** Every query of the compressed table answers what it would on the plain one. */
  ghost predicate AnswersOver(s: State, plain: map<int, Row>, cat: Catalog) {
    forall fields, filters, limit, offset, order :: Asked(plain, cat, filters, order) ==>
      SameOn(s, plain, cat, fields, filters, limit, offset, order)
  }

  lemma EncodedAnswersOver(s: State, plain: map<int, Row>, cat: Catalog)
    requires Injective(s.lookup) && Encodes(s.tables.rows, plain, cat, s.lookup) && cat.timestamp !in cat.compressed
    ensures AnswersOver(s, plain, cat)
  {
    hide Query, Listing, Injective, Encodes, WhereOf;
    forall fields, filters, limit, offset, order | Asked(plain, cat, filters, order)
      ensures SameOn(s, plain, cat, fields, filters, limit, offset, order)
    {
      CompressionPreservesQueries(cat, s.lookup, s.tables.rows, plain, fields, filters, limit, offset, order);
    }
  }

  lemma TextsAreTheirDumps(s: State, owners: map<int, nat>, cat: Catalog)
    requires Owners(s, owners, cat) && TextsOnly(s, owners, cat)
    ensures Originals(s, owners, cat) == Dumped(s, owners, cat)
  {
    hide RowOwned, OriginalRow, DumpedRow;
    forall id | id in owners
      ensures owners[id] < |s.arrivals| && id in s.tables.rows
           && OriginalRow(s.arrivals[owners[id]], s.tables.rows[id]) == DumpedRow(s.arrivals[owners[id]],
                 s.tables.rows[id], cat)
    {
      OwnedInRange(s, owners, cat, id);
      TextRowIsItsDump(s, owners, cat, id);
    }
  }

  lemma OwnedInRange(s: State, owners: map<int, nat>, cat: Catalog, id: int)
    requires Owners(s, owners, cat) && id in owners
    ensures id in s.tables.rows && owners[id] < |s.arrivals|
    ensures RowFor(s.arrivals[owners[id]], s.tables.rows[id], cat, s.tables.dict)
  {
    assert RowOwned(s, cat, id, owners[id]);
    hide RowFor;
  }

  lemma TextRowIsItsDump(s: State, owners: map<int, nat>, cat: Catalog, id: int)
    requires TextsOnly(s, owners, cat) && id in owners && id in s.tables.rows && owners[id] < |s.arrivals|
    ensures OriginalRow(s.arrivals[owners[id]], s.tables.rows[id]) == DumpedRow(s.arrivals[owners[id]],
          s.tables.rows[id], cat)
  {
    var row := s.tables.rows[id];
    forall name | name in row && name in cat.compressed ensures !Numeric(s, owners, id, name) {
      assert id in s.tables.rows && name in s.tables.rows[id];
    }
    hide DumpInt, TextsOnly;
  }

  /** One row, asked for by its id, with one column reported twice. */
  lemma RowIsReported(cat: Catalog, lookup: Lookup, rows: map<int, Row>, id: int, name: string, reported: Result<Cell>)
    requires id in rows && cat.HasColumn(ID) && cat.HasColumn(name) && ID !in cat.compressed
    requires Reported(cat, lookup, name, CellOf(id, rows[id], name)) == reported
    ensures var byId := [Filter(ID, "=", JInt(id))];
            && WhereOf(byId, cat, lookup).Ok?
            && Listing([id], rows, WhereOf(byId, cat, lookup).value, cat.timestamp)
            && var page := Query(cat, lookup, rows, [name, name], byId, 1, 0, [id]);
               if reported.Ok? then page == Ok(Page(1, [map[name := reported.value]])) else page.Error?
  {
    var f := Filter(ID, "=", JInt(id));
    OneFilterSelects(rows, f, cat, lookup);
    var w := WhereOf([f], cat, lookup).value;
    IdMatches(rows, w, id);
    hide WhereOf, Matching, Reported;
    assert Slice([id], 1, 0) == [id] && [id][..0] == [];
    ReportedTwice(cat, lookup, rows[id], id, name, reported);
    assert ReportRows(cat, lookup, [name, name], rows, []) == Ok([]);
    assert reported.Ok? ==> [] + [map[name := reported.value]] == [map[name := reported.value]];
    hide ReportRow;
    assert EffectiveFields([name, name], cat) == Ok([name, name]);
  }

  lemma IdMatches(rows: map<int, Row>, w: Where, id: int)
    requires id in rows && forall x :: x in rows ==> (x in Matching(rows, w) <==> x == id)
    ensures Matching(rows, w) == {id} && |Matching(rows, w)| == 1
  {
    var ids := Matching(rows, w);
    hide Matching;
    MatchingIsPresent(rows, w);
    forall x ensures x in ids <==> x == id {
    }
    Subset(ids, {id});
    Subset({id}, ids);
  }

  lemma MatchingIsPresent(rows: map<int, Row>, w: Where)
    ensures forall x :: x in Matching(rows, w) ==> x in rows
  {
  }

  lemma ReportedTwice(cat: Catalog, lookup: Lookup, row: Row, id: int, name: string, reported: Result<Cell>)
    requires Reported(cat, lookup, name, CellOf(id, row, name)) == reported
    ensures var r := ReportRow(cat, lookup, [name, name], id, row);
            if reported.Ok? then r == Ok(map[name := reported.value]) else r.Error?
  {
    hide Reported;
    assert [name, name][..1] == [name] && [name][..0] == [];
    assert ReportRow(cat, lookup, [], id, row) == Ok(map[]);
    if reported.Ok? {
      assert ReportRow(cat, lookup, [name], id, row) == Ok(map[name := reported.value]);
      assert map[name := reported.value][name := reported.value] == map[name := reported.value];
    }
  }

  lemma {:induction false} DataColumnsAreColumns(columns: seq<Column>, c: Column)
    requires c in NonKeys(columns)
    ensures c in columns
  {
    if c in NonKeys(columns[..|columns| - 1]) {
      DataColumnsAreColumns(columns[..|columns| - 1], c);
    }
  }

  lemma OriginalCell(s: State, owners: map<int, nat>, cat: Catalog, id: int, name: string)
    requires Owners(s, owners, cat) && id in s.tables.rows && name in s.tables.rows[id] && name != ID
    ensures id in Originals(s, owners, cat) && id in owners && owners[id] < |s.arrivals|
    ensures CellOf(id, Originals(s, owners, cat)[id], name) == Bound(W.Raw(s.arrivals[owners[id]], name))
  {
    OwnedInRange(s, owners, cat, id);
    hide RowFor, RowOwned, Bound;
  }

  lemma DumpedCell(s: State, owners: map<int, nat>, cat: Catalog, id: int, name: string)
    requires Owners(s, owners, cat) && id in s.tables.rows && name in s.tables.rows[id] && name != ID
    requires id in owners && owners[id] < |s.arrivals|
    requires name in cat.compressed && W.Raw(s.arrivals[owners[id]], name) != JNull
    ensures id in Dumped(s, owners, cat)
    ensures CellOf(id, Dumped(s, owners, cat)[id], name) == Text(StoredText(W.Raw(s.arrivals[owners[id]], name)))
  {
    hide RowFor, RowOwned, Bound, StoredText;
  }

  /** What the row holds in a compressed column for a value that is not null. */
  lemma EncodedCell(entry: LogEntry, row: Row, cat: Catalog, dict: seq<DictRow>, name: string)
    requires RowFor(entry, row, cat, dict) && name in row && name in cat.compressed && W.Raw(entry, name) != JNull
    ensures cat.HasColumn(name) && row[name].Int?
  {
    var column :| column in cat.DataColumns() && column.name == name;
    DataColumnsAreColumns(cat.columns, column);
    assert CellFor(entry, name, row[name], cat, dict);
  }

  /** A cell that is not reported as the plain one: a query for that row tells the tables apart. */
  lemma ReportTellsApart(s: State, plain: map<int, Row>, cat: Catalog, id: int, name: string)
    requires id in s.tables.rows && id in plain && cat.HasColumn(ID) && cat.HasColumn(name) && ID !in cat.compressed
    requires Reported(cat, s.lookup, name, CellOf(id, s.tables.rows[id], name)) != Ok(CellOf(id, plain[id], name))
    ensures !AnswersOver(s, plain, cat)
  {
    hide Query, WhereOf, Listing, AnswersOver;
    var byId := [Filter(ID, "=", JInt(id))];
    var reported := Reported(cat, s.lookup, name, CellOf(id, s.tables.rows[id], name));
    RowIsReported(cat, s.lookup, s.tables.rows, id, name, reported);
    RowIsReported(Uncompressed(cat), map[], plain, id, name, Ok(CellOf(id, plain[id], name)));
    assert Asked(plain, cat, byId, [id]);
    if reported.Ok? {
      assert map[name := reported.value][name] != map[name := CellOf(id, plain[id], name)][name];
    }
    hide Reported, CellOf;
    assert !SameOn(s, plain, cat, [name, name], byId, 1, 0, [id]);
    NotAllSame(s, plain, cat, [name, name], byId, [id]);
  }

  lemma NotAllSame(s: State, plain: map<int, Row>, cat: Catalog, fields: seq<string>, filters: seq<Filter>,
        order: seq<int>)
    requires Asked(plain, cat, filters, order) && !SameOn(s, plain, cat, fields, filters, 1, 0, order)
    ensures !AnswersOver(s, plain, cat)
  {
    hide Asked, SameOn;
  }

  /** A number in a compressed column comes back as text or not at all, so some query tells the tables apart. */
  lemma NumbersComeBackAsText(s: State, owners: map<int, nat>, cat: Catalog, id: int, name: string)
    requires Owners(s, owners, cat) && cat.HasColumn(ID) && ID !in cat.compressed
    requires id in s.tables.rows && name in s.tables.rows[id] && name in cat.compressed && Numeric(s, owners, id, name)
    ensures !AnswersOver(s, Originals(s, owners, cat), cat)
  {
    OwnedInRange(s, owners, cat, id);
    OriginalCell(s, owners, cat, id, name);
    EncodedCell(s.arrivals[owners[id]], s.tables.rows[id], cat, s.tables.dict, name);
    hide Originals, AnswersOver, RowFor, Holds, Owners;
    ReportTellsApart(s, Originals(s, owners, cat), cat, id, name);
  }

  /** An id that is not that of its text is reported as another text or as an error. */
  lemma UndecodedTellsApart(s: State, owners: map<int, nat>, cat: Catalog, id: int, name: string)
    requires Owners(s, owners, cat) && cat.HasColumn(ID) && ID !in cat.compressed
    requires id in s.tables.rows && id in owners && owners[id] < |s.arrivals| && name in s.tables.rows[id]
    requires name in cat.compressed && s.tables.rows[id][name].Int?
    requires var raw := W.Raw(s.arrivals[owners[id]], name);
             raw != JNull && !Holds(s.lookup, DictRow(name, StoredText(raw), s.tables.rows[id][name].n))
    ensures !AnswersOver(s, Dumped(s, owners, cat), cat)
  {
    OwnedInRange(s, owners, cat, id);
    DumpedCell(s, owners, cat, id, name);
    EncodedCell(s.arrivals[owners[id]], s.tables.rows[id], cat, s.tables.dict, name);
    hide Dumped, AnswersOver, RowFor, Holds, Owners, StoredText;
    ReportTellsApart(s, Dumped(s, owners, cat), cat, id, name);
  }

  /** Where some row does not decode, some query tells the table from the dumped one. */
  lemma UndecodedIsNoticed(s: State, owners: map<int, nat>, cat: Catalog)
    requires StorageSound(s, cat) && Owners(s, owners, cat) && cat.HasColumn(ID) && ID !in cat.compressed
    requires !AllDecode(s, cat)
    ensures !AnswersOver(s, Dumped(s, owners, cat), cat)
  {
    hide AnswersOver, Dumped, Holds, StoredText;
    var id, i :| RowOwned(s, cat, id, i) && !RowDecodes(s.arrivals[i], s.tables.rows[id], cat, s.lookup);
    assert id in owners && RowOwned(s, cat, id, owners[id]);
    OneOwner(s, cat, id, i, owners[id]);
    var name :| name in s.tables.rows[id] && name in cat.compressed && W.Raw(s.arrivals[i], name) != JNull
      && !(s.tables.rows[id][name].Int?
           && Holds(s.lookup, DictRow(name, StoredText(W.Raw(s.arrivals[i], name)), s.tables.rows[id][name].n)));
    EncodedCell(s.arrivals[i], s.tables.rows[id], cat, s.tables.dict, name);
    UndecodedTellsApart(s, owners, cat, id, name);
  }

  lemma AnswersOverDumpedExactlyWhen(s: State, owners: map<int, nat>, cat: Catalog)
    requires StorageSound(s, cat) && Owners(s, owners, cat) && cat.HasColumn(ID)
    requires ID !in cat.compressed && cat.timestamp !in cat.compressed
    ensures AnswersOver(s, Dumped(s, owners, cat), cat) <==> AllDecode(s, cat)
  {
    hide AnswersOver, Dumped, RowOwned;
    if AllDecode(s, cat) {
      TableStandsForDumped(s, owners, cat);
      EncodedAnswersOver(s, Dumped(s, owners, cat), cat);
    } else {
      UndecodedIsNoticed(s, owners, cat);
    }
  }

  lemma AnswersOverOriginalsExactlyWhen(s: State, owners: map<int, nat>, cat: Catalog)
    requires StorageSound(s, cat) && Owners(s, owners, cat) && cat.HasColumn(ID)
    requires ID !in cat.compressed && cat.timestamp !in cat.compressed
    ensures AnswersOver(s, Originals(s, owners, cat), cat) <==> AllDecode(s, cat) && TextsOnly(s, owners, cat)
  {
    hide AnswersOver, Dumped, Originals, RowOwned, AllDecode;
    if TextsOnly(s, owners, cat) {
      TextsAreTheirDumps(s, owners, cat);
      AnswersOverDumpedExactlyWhen(s, owners, cat);
    } else {
      var id, name :| id in s.tables.rows && name in s.tables.rows[id] && name in cat.compressed
        && Numeric(s, owners, id, name);
      NumbersComeBackAsText(s, owners, cat, id, name);
    }
  }

  /** End to end. After any run of producers, flushes, failures, vacuums and restarts every row belongs to an entry,
      and: every query over the compressed table answers what it would over the entries' values with the numbers and
      booleans of compressed columns as text, if and only if every row decodes; and it answers what it would over
      their values as handed in if and only if, besides, the compressed columns hold only texts and nulls. Every row
      decodes at every moment of a run if every restart keeps the texts of the rows it finds. */
  lemma QueriesAnswerOverOriginals(events: seq<Event>, c: Config, owners: map<int, nat>)
    requires c.backlogMax >= 1 && c.catalog.HasColumn(ID)
    requires ID !in c.catalog.compressed && c.catalog.timestamp !in c.catalog.compressed
    ensures exists found: map<int, nat> :: Owners(Run(events, c), found, c.catalog)
    ensures RestartsKeepTexts(events, c) ==> AllDecode(Run(events, c), c.catalog)
    ensures var s := Run(events, c); Owners(s, owners, c.catalog) ==>
      && (AnswersOver(s, Dumped(s, owners, c.catalog), c.catalog) <==> AllDecode(s, c.catalog))
      && (AnswersOver(s, Originals(s, owners, c.catalog), c.catalog) <==>
            AllDecode(s, c.catalog) && TextsOnly(s, owners, c.catalog))
  {
    EveryRunIsSound(events, c);
    var s, cat := Run(events, c), c.catalog;
    hide Run, AnswersOver, Dumped, Originals, AllDecode, TextsOnly;
    if RestartsKeepTexts(events, c) {
      DecodesUpTo(events, c, |events|);
      assert events[..|events|] == events;
    }
    hide RestartsKeepTexts;
    var found := OwnersExist(s, cat);
    if Owners(s, owners, cat) {
      AnswersOverDumpedExactlyWhen(s, owners, cat);
      AnswersOverOriginalsExactlyWhen(s, owners, cat);
    }
  }
}
