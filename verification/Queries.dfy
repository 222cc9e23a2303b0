/** Filters, the WHERE clause built from them, and the paginated query over a table with compressed columns. */
module Queries {
  import opened Results
  import opened IdSets
  import opened LogTable
  import opened Dictionary

  datatype Filter = Filter(field: string, op: string, value: Json)

  const COMPARISONS := ["=", "!=", ">", ">=", "<", "<="]
  const ALLOWED_OPS := COMPARISONS + ["~="]

  datatype Condition =
    | In(field: string, ids: set<int>)
    | Like(field: string, part: string)
    | Cmp(field: string, op: string, value: Cell)

  /** Never is the clause 1=0; an empty conjunction is 1=1. */
  datatype Where = Never | All(conditions: seq<Condition>)

  function FilterText(v: Json): string { Dump(v) }

  function ConditionOf(f: Filter, cat: Catalog, lookup: Lookup): Condition {
    if f.field in cat.compressed then In(f.field, Candidates(lookup, f.field, f.op, FilterText(f.value)))
    else if f.op == "~=" then Like(f.field, FilterText(f.value))
    else Cmp(f.field, f.op, Bound(f.value))
  }

  predicate ValidFilter(f: Filter, cat: Catalog) {
    cat.HasColumn(f.field) && f.op in ALLOWED_OPS
  }

  /** Filters are taken in order: an invalid one is an error, a compressed one without candidates ends the
      clause as Never without a look at the rest. */
  function WhereOf(filters: seq<Filter>, cat: Catalog, lookup: Lookup): Result<Where> {
    if filters == [] then Ok(All([]))
    else
      var before, f := WhereOf(filters[..|filters| - 1], cat, lookup), filters[|filters| - 1];
      if before.Error? || before.value.Never? then before
      else if !ValidFilter(f, cat) then Error("Unknown field or operator")
      else
        var condition := ConditionOf(f, cat, lookup);
        if condition.In? && condition.ids == {} then Ok(Never) else Ok(All(before.value.conditions + [condition]))
  }

  predicate Holds1(condition: Condition, id: int, row: Row) {
    var cell := CellOf(id, row, condition.field);
    match condition
    case In(_, ids) => cell.Int? && cell.n in ids
    case Like(_, part) => cell != Null && Contains(CellText(cell), part)
    case Cmp(_, op, value) => Compare(op, cell, value)
  }

  predicate Selects(w: Where, id: int, row: Row) {
    w.All? && forall k :: 0 <= k < |w.conditions| ==> Holds1(w.conditions[k], id, row)
  }

  function Matching(rows: map<int, Row>, w: Where): set<int> {
    set id | id in rows && Selects(w, id, rows[id])
  }

  // ── Counting ───────────────────────────────────────────────────────────────

  /** MAX(id) - MIN(id) + 1, or 0 for an empty table. */
  ghost function EstimateRowCount(rows: map<int, Row>): nat {
    if rows.Keys == {} then 0 else MaxOf(rows.Keys) - MinOf(rows.Keys) + 1
  }

  // ── The query ──────────────────────────────────────────────────────────────

  datatype Page = Page(total: nat, results: seq<map<string, Cell>>)

  function Names(columns: seq<Column>): seq<string> {
    if columns == [] then [] else Names(columns[..|columns| - 1]) + [columns[|columns| - 1].name]
  }

  function EffectiveFields(fields: seq<string>, cat: Catalog): Result<seq<string>> {
    if fields == ["*"] then Ok(Names(cat.columns))
    else if forall f :: f in fields ==> cat.HasColumn(f) then Ok(fields)
    else Error("Unknown field name")
  }

  /** A cell as the reader reports it: an integer in a compressed column through the dictionary. */
  ghost function Reported(cat: Catalog, lookup: Lookup, field: string, cell: Cell): Result<Cell> {
    if field in cat.compressed && cell.Int? then
      if exists v :: Holds(lookup, DictRow(field, v, cell.n)) then
        var v :| Holds(lookup, DictRow(field, v, cell.n));
        Ok(Text(v))
      else Error("No value for id")
    else Ok(cell)
  }

  ghost function ReportRow(cat: Catalog, lookup: Lookup, fields: seq<string>, id: int,
                           row: Row): Result<map<string, Cell>> {
    if fields == [] then Ok(map[])
    else
      var before, f := ReportRow(cat, lookup, fields[..|fields| - 1], id, row), fields[|fields| - 1];
      if before.Error? then before
      else
        var cell := Reported(cat, lookup, f, CellOf(id, row, f));
        if cell.Error? then Error(cell.message) else Ok(before.value[f := cell.value])
  }

  ghost function ReportRows(cat: Catalog, lookup: Lookup, fields: seq<string>, rows: map<int, Row>,
                            ids: seq<int>): Result<seq<map<string, Cell>>> {
    if ids == [] then Ok([])
    else
      var k := |ids| - 1;
      var before := ReportRows(cat, lookup, fields, rows, ids[..k]);
      if before.Error? then before
      else
        var one := ReportRow(cat, lookup, fields, ids[k], if ids[k] in rows then rows[ids[k]] else map[]);
        if one.Error? then Error(one.message) else Ok(before.value + [one.value])
  }

  /** Each of the ids once. */
  ghost predicate Enumerates(order: seq<int>, ids: set<int>) {
    && (forall i, j :: 0 <= i < j < |order| ==> order[i] != order[j])
    && (forall id :: id in order <==> id in ids)
  }

  ghost predicate NewestFirst(order: seq<int>, rows: map<int, Row>, timestamp: string) {
    forall i, j :: 0 <= i < j < |order| && order[i] in rows && order[j] in rows ==>
      !CellLess(CellOf(order[i], rows[order[i]], timestamp), CellOf(order[j], rows[order[j]], timestamp))
  }

  /** The selected rows as ORDER BY timestamp DESC may list them. */
  ghost predicate Listing(order: seq<int>, rows: map<int, Row>, w: Where, timestamp: string) {
    Enumerates(order, Matching(rows, w)) && NewestFirst(order, rows, timestamp)
  }

  function Slice(order: seq<int>, limit: nat, offset: int): seq<int> {
    var from := if offset < 0 then 0 else if offset > |order| then |order| else offset;
    if |order| - from <= limit then order[from..] else order[from..from + limit]
  }

  ghost function TotalOf(filters: seq<Filter>, rows: map<int, Row>, w: Where): nat {
    if filters == [] then EstimateRowCount(rows) else |Matching(rows, w)|
  }

  /** order: the matching rows as ORDER BY lists them. A negative limit is only noticed when there are rows. */
  ghost function Query(cat: Catalog, lookup: Lookup, rows: map<int, Row>, fields: seq<string>, filters: seq<Filter>,
                       limit: int, offset: int, order: seq<int>): Result<Page> {
    var effective := EffectiveFields(fields, cat);
    if effective.Error? then Error(effective.message)
    else
      var w := WhereOf(filters, cat, lookup);
      if w.Error? then Error(w.message)
      else if TotalOf(filters, rows, w.value) == 0 then Ok(Page(0, []))
      else if limit < 0 then Error("length_error")
      else
        var results := ReportRows(cat, lookup, effective.value, rows, Slice(order, limit, offset));
        if results.Error? then Error(results.message) else Ok(Page(TotalOf(filters, rows, w.value), results.value))
  }

  // ── Compression preserves queries ──────────────────────────────────────────

  /** The cell of a compressed column stands for the original one. */
  predicate CellStandsFor(encoded: Cell, plain: Cell, column: string, cat: Catalog, lookup: Lookup) {
    if column in cat.compressed && plain.Text? then encoded.Int? && Holds(lookup, DictRow(column, plain.s, encoded.n))
    else encoded == plain
  }

  ghost predicate RowStandsFor(encoded: Row, plain: Row, id: int, cat: Catalog, lookup: Lookup) {
    forall column ::
      && CellStandsFor(CellOf(id, encoded, column), CellOf(id, plain, column), column, cat, lookup)
      && (column in cat.compressed ==> !CellOf(id, plain, column).Int?)
  }

  /** The encoded table stands for the original one: the same ids, and in compressed columns only NULL and text. */
  ghost predicate Encodes(encoded: map<int, Row>, plain: map<int, Row>, cat: Catalog, lookup: Lookup) {
    encoded.Keys == plain.Keys
    && forall id :: id in plain ==> id in encoded && RowStandsFor(encoded[id], plain[id], id, cat, lookup)
  }

  function Uncompressed(cat: Catalog): Catalog { cat.(compressed := {}) }

  predicate TextComparison(f: Filter, cat: Catalog) {
    f.field in cat.compressed ==> f.value.JText? && f.op in COMPARISONS
  }

  /** One pushed-down condition selects a row exactly when the original comparison does. */
  lemma ConditionPreserved(f: Filter, cat: Catalog, lookup: Lookup, encoded: map<int, Row>, plain: map<int, Row>,
                           id: int)
    requires Injective(lookup) && Encodes(encoded, plain, cat, lookup) && id in plain && TextComparison(f, cat)
    ensures Holds1(ConditionOf(f, cat, lookup), id, encoded[id])
       <==> Holds1(ConditionOf(f, Uncompressed(cat), map[]), id, plain[id])
  {
    var cell, original := CellOf(id, encoded[id], f.field), CellOf(id, plain[id], f.field);
    assert RowStandsFor(encoded[id], plain[id], id, cat, lookup);
    assert CellStandsFor(cell, original, f.field, cat, lookup);
    if f.field in cat.compressed {
      var wanted := FilterText(f.value);
      if original.Text? {
        CandidateIsTheText(lookup, f.field, f.op, wanted, original.s, cell.n);
      }
    }
  }

  lemma CandidateIsTheText(lookup: Lookup, column: string, op: string, wanted: string, text: string, id: int)
    requires Injective(lookup) && Holds(lookup, DictRow(column, text, id))
    ensures id in Candidates(lookup, column, op, wanted) <==> TextMatches(op, wanted, text)
  {
    var known := Known(lookup, column);
    if id in Candidates(lookup, column, op, wanted) {
      var v :| v in known && TextMatches(op, wanted, v) && known[v] == id;
      assert Holds(lookup, DictRow(column, v, id));
    }
    assert text in known && known[text] == id;
  }

  /** Where both clauses exist, they select the same rows; the early exit can only stand for no rows at all. */
  lemma {:induction false} WherePreserved(filters: seq<Filter>, cat: Catalog, lookup: Lookup, encoded: map<int, Row>,
                                          plain: map<int, Row>)
    requires Injective(lookup) && Encodes(encoded, plain, cat, lookup)
    requires forall f :: f in filters ==> TextComparison(f, cat)
    ensures var w, v := WhereOf(filters, cat, lookup), WhereOf(filters, Uncompressed(cat), map[]);
            && (v.Ok? ==> w.Ok? && v.value.All?)
            && (v.Ok? ==> forall id :: id in plain ==>
                  (Selects(w.value, id, encoded[id]) <==> Selects(v.value, id, plain[id])))
  {
    if filters != [] {
      var k := |filters| - 1;
      var init, f := filters[..k], filters[k];
      WherePreserved(init, cat, lookup, encoded, plain);
      var w0, v0 := WhereOf(init, cat, lookup), WhereOf(init, Uncompressed(cat), map[]);
      var w, v := WhereOf(filters, cat, lookup), WhereOf(filters, Uncompressed(cat), map[]);
      if v.Ok? {
        forall id | id in plain ensures Selects(w.value, id, encoded[id]) <==> Selects(v.value, id, plain[id]) {
          ConditionPreserved(f, cat, lookup, encoded, plain, id);
          SelectsMore(v0.value.conditions, ConditionOf(f, Uncompressed(cat), map[]), id, plain[id]);
          if w0.value.All? {
            SelectsMore(w0.value.conditions, ConditionOf(f, cat, lookup), id, encoded[id]);
          }
        }
      }
    }
  }

  lemma SelectsMore(conditions: seq<Condition>, c: Condition, id: int, row: Row)
    ensures Selects(All(conditions + [c]), id, row) <==> Selects(All(conditions), id, row) && Holds1(c, id, row)
  {
    assert (conditions + [c])[|conditions|] == c;
    assert forall k :: 0 <= k < |conditions| ==> (conditions + [c])[k] == conditions[k];
  }

  lemma {:induction false} RowPreserved(cat: Catalog, lookup: Lookup, fields: seq<string>, encoded: map<int, Row>,
                                        plain: map<int, Row>, id: int)
    requires Injective(lookup) && Encodes(encoded, plain, cat, lookup) && id in plain
    ensures ReportRow(cat, lookup, fields, id, encoded[id]) == ReportRow(Uncompressed(cat), map[], fields, id,
          plain[id])
  {
    if fields != [] {
      var k := |fields| - 1;
      RowPreserved(cat, lookup, fields[..k], encoded, plain, id);
      var cell, original := CellOf(id, encoded[id], fields[k]), CellOf(id, plain[id], fields[k]);
      assert RowStandsFor(encoded[id], plain[id], id, cat, lookup);
      assert CellStandsFor(cell, original, fields[k], cat, lookup);
      if fields[k] in cat.compressed && original.Text? {
        assert Holds(lookup, DictRow(fields[k], original.s, cell.n));
      }
    }
  }

  lemma {:induction false} RowsPreserved(cat: Catalog, lookup: Lookup, fields: seq<string>, encoded: map<int, Row>,
                                         plain: map<int, Row>, ids: seq<int>)
    requires Injective(lookup) && Encodes(encoded, plain, cat, lookup) && forall k :: 0 <= k < |ids| ==> ids[k] in plain
    ensures ReportRows(cat, lookup, fields, encoded, ids) == ReportRows(Uncompressed(cat), map[], fields, plain, ids)
  {
    if ids != [] {
      var k := |ids| - 1;
      RowsPreserved(cat, lookup, fields, encoded, plain, ids[..k]);
      assert ids[k] in plain.Keys && ids[k] in encoded.Keys;
      RowPreserved(cat, lookup, fields, encoded, plain, ids[k]);
    }
  }

  lemma MatchingPreserved(w: Where, v: Where, encoded: map<int, Row>, plain: map<int, Row>)
    requires encoded.Keys == plain.Keys
    requires forall id :: id in plain ==> (Selects(w, id, encoded[id]) <==> Selects(v, id, plain[id]))
    ensures Matching(encoded, w) == Matching(plain, v)
  {
    var a, b := Matching(encoded, w), Matching(plain, v);
    forall id | id in a ensures id in b {
      assert id in encoded.Keys;
    }
    forall id | id in b ensures id in a {
      assert id in plain.Keys;
    }
    Subset(a, b);
    Subset(b, a);
  }

  lemma SameTotal(filters: seq<Filter>, encoded: map<int, Row>, plain: map<int, Row>, w: Where, v: Where)
    requires encoded.Keys == plain.Keys && Matching(encoded, w) == Matching(plain, v)
    ensures TotalOf(filters, encoded, w) == TotalOf(filters, plain, v)
  {
    hide Matching;
  }

  /** Compression preserves queries. For any injective dictionary, any table of NULLs and texts in the
      compressed columns and any filters that use the six comparisons there, every listing the original
      table allows is one the encoded table allows, and when the query of the original table succeeds, the
      query of the encoded table returns the same total and the same decoded rows. */
  lemma CompressionPreservesQueries(cat: Catalog, lookup: Lookup, encoded: map<int, Row>, plain: map<int, Row>,
                                    fields: seq<string>,
                                    filters: seq<Filter>, limit: int, offset: int, order: seq<int>)
    requires Injective(lookup) && Encodes(encoded, plain, cat, lookup)
    requires cat.timestamp !in cat.compressed && forall f :: f in filters ==> TextComparison(f, cat)
    requires WhereOf(filters, Uncompressed(cat), map[]).Ok?
    requires Listing(order, plain, WhereOf(filters, Uncompressed(cat), map[]).value, cat.timestamp)
    ensures WhereOf(filters, cat, lookup).Ok?
    ensures Listing(order, encoded, WhereOf(filters, cat, lookup).value, cat.timestamp)
    ensures Query(cat, lookup, encoded, fields, filters, limit, offset, order)
         == Query(Uncompressed(cat), map[], plain, fields, filters, limit, offset, order)
  {
    WherePreserved(filters, cat, lookup, encoded, plain);
    var w, v := WhereOf(filters, cat, lookup).value, WhereOf(filters, Uncompressed(cat), map[]).value;
    MatchingPreserved(w, v, encoded, plain);
    ListingPreserved(order, encoded, plain, w, v, cat, lookup);
    var effective := EffectiveFields(fields, cat);
    SameFields(fields, cat);
    assert encoded.Keys == plain.Keys;
    SameTotal(filters, encoded, plain, w, v);
    hide Listing, Encodes, Injective, WhereOf, Matching, TotalOf, EffectiveFields;
    if limit >= 0 && effective.Ok? {
      RowsPreserved(cat, lookup, effective.value, encoded, plain, Slice(order, limit, offset));
    }
  }

  lemma ListedIsPresent(order: seq<int>, rows: map<int, Row>, w: Where, timestamp: string, k: int)
    requires Listing(order, rows, w, timestamp) && 0 <= k < |order|
    ensures order[k] in rows
  {
    assert order[k] in order;
    assert order[k] in Matching(rows, w);
  }

  lemma ListingPreserved(order: seq<int>, encoded: map<int, Row>, plain: map<int, Row>, w: Where, v: Where,
                         cat: Catalog, lookup: Lookup)
    requires Encodes(encoded, plain, cat, lookup) && cat.timestamp !in cat.compressed
    requires Listing(order, plain, v, cat.timestamp) && Matching(encoded, w) == Matching(plain, v)
    ensures Listing(order, encoded, w, cat.timestamp)
    ensures forall k :: 0 <= k < |order| ==> order[k] in plain
  {
    forall k | 0 <= k < |order| ensures order[k] in plain && order[k] in encoded {
      ListedIsPresent(order, plain, v, cat.timestamp, k);
      assert order[k] in plain.Keys;
    }
    forall k | 0 <= k < |order|
      ensures CellOf(order[k], encoded[order[k]], cat.timestamp) == CellOf(order[k], plain[order[k]], cat.timestamp)
    {
      var id := order[k];
      assert RowStandsFor(encoded[id], plain[id], id, cat, lookup);
      assert CellStandsFor(CellOf(id, encoded[id], cat.timestamp), CellOf(id, plain[id], cat.timestamp),
            cat.timestamp, cat, lookup);
    }
  }

  lemma SameFields(fields: seq<string>, cat: Catalog)
    ensures EffectiveFields(fields, Uncompressed(cat)) == EffectiveFields(fields, cat)
  {
    assert forall f :: Uncompressed(cat).HasColumn(f) <==> cat.HasColumn(f);
  }

  /** NULL is selected by no filter, compressed or not. */
  lemma NullIsNeverSelected(filters: seq<Filter>, cat: Catalog, lookup: Lookup, id: int, row: Row, f: Filter)
    requires f in filters && CellOf(id, row, f.field) == Null && WhereOf(filters, cat, lookup).Ok?
    ensures !Selects(WhereOf(filters, cat, lookup).value, id, row)
  {
    if WhereOf(filters, cat, lookup).value.All? {
      ConditionsOfFilters(filters, cat, lookup);
      var k :| 0 <= k < |filters| && filters[k] == f;
      assert !Holds1(WhereOf(filters, cat, lookup).value.conditions[k], id, row);
    }
  }

  lemma {:induction false} ConditionsOfFilters(filters: seq<Filter>, cat: Catalog, lookup: Lookup)
    requires WhereOf(filters, cat, lookup).Ok? && WhereOf(filters, cat, lookup).value.All?
    ensures var c := WhereOf(filters, cat, lookup).value.conditions;
            |c| == |filters| && forall k :: 0 <= k < |c| ==> c[k] == ConditionOf(filters[k], cat, lookup)
  {
    if filters != [] {
      ConditionsOfFilters(filters[..|filters| - 1], cat, lookup);
    }
  }

  // ── Substring filters ──────────────────────────────────────────────────────

  /** On a compressed column "~=" selects the texts that contain the wanted one or are contained in it. */
  lemma SubstringOnCompressed(cat: Catalog, lookup: Lookup, column: string, wanted: string, text: string, id: int,
                              n: int, row: Row)
    requires Injective(lookup) && column in cat.compressed && CellOf(id, row, column) == Int(n)
    requires Holds(lookup, DictRow(column, text, n))
    ensures Holds1(ConditionOf(Filter(column, "~=", JText(wanted)), cat, lookup), id, row)
       <==> Contains(text, wanted) || Contains(wanted, text)
  {
    CandidateIsTheText(lookup, column, "~=", wanted, text, n);
  }

  /** So it means "contains", as it does on other columns, exactly when no stored text is a part of the wanted
      one without containing it. */
  lemma SubstringMeansContainsExactlyWhen(cat: Catalog, lookup: Lookup, encoded: map<int, Row>, plain: map<int, Row>,
                                          column: string, wanted: string)
    requires Injective(lookup) && Encodes(encoded, plain, cat, lookup) && column in cat.compressed
    ensures var f := Filter(column, "~=", JText(wanted)); (
            (forall id :: id in plain ==>
               (Holds1(ConditionOf(f, cat, lookup), id, encoded[id]) <==>
                     Holds1(ConditionOf(f, Uncompressed(cat), map[]), id, plain[id])))
       <==> (forall id :: id in plain && CellOf(id, plain[id], column).Text? ==>
               Contains(wanted, CellOf(id, plain[id], column).s) ==> Contains(CellOf(id, plain[id], column).s, wanted)))
  {
    var f := Filter(column, "~=", JText(wanted));
    forall id | id in plain
      ensures (Holds1(ConditionOf(f, cat, lookup), id, encoded[id]) <==>
            Holds1(ConditionOf(f, Uncompressed(cat), map[]), id, plain[id]))
         <==> (CellOf(id, plain[id], column).Text? ==>
                 Contains(wanted, CellOf(id, plain[id], column).s) ==>
                       Contains(CellOf(id, plain[id], column).s, wanted))
    {
      var original, cell := CellOf(id, plain[id], column), CellOf(id, encoded[id], column);
      assert RowStandsFor(encoded[id], plain[id], id, cat, lookup);
      assert CellStandsFor(cell, original, column, cat, lookup);
      if original.Text? {
        SubstringOnCompressed(cat, lookup, column, wanted, original.s, id, cell.n, encoded[id]);
      }
    }
  }

  /** A filter on one uncompressed column selects by plain comparison. */
  lemma OneFilterSelects(rows: map<int, Row>, f: Filter, cat: Catalog, lookup: Lookup)
    requires ValidFilter(f, cat) && f.op in COMPARISONS && f.field !in cat.compressed
    ensures WhereOf([f], cat, lookup) == Ok(All([Cmp(f.field, f.op, Bound(f.value))]))
    ensures forall id :: id in rows ==>
      (id in Matching(rows, All([Cmp(f.field, f.op, Bound(f.value))])) <==>
            Compare(f.op, CellOf(id, rows[id], f.field), Bound(f.value)))
  {
    var conditions := [Cmp(f.field, f.op, Bound(f.value))];
    assert [f][..0] == [] && [] + [conditions[0]] == conditions;
    forall id | id in rows ensures Selects(All(conditions), id, rows[id]) <==> Holds1(conditions[0], id, rows[id]) {
    }
  }

  // ── The reader's code ──────────────────────────────────────────────────────

  /** Equal answers; error texts are not part of the model. */
  predicate SameAnswer<T(==)>(a: Result<T>, b: Result<T>) {
    a == b || (a.Error? && b.Error?)
  }

  class ReaderDatabase {
    const catalog: Catalog
    const dictionary: ColumnDictionary
    const rows: map<int, Row>      // the snapshot the connection reads

    constructor (catalog: Catalog, dictionary: ColumnDictionary, rows: map<int, Row>)
      ensures this.catalog == catalog && this.dictionary == dictionary && this.rows == rows
    {
      this.catalog, this.dictionary, this.rows := catalog, dictionary, rows;
    }

    method BuildWhereClause(filters: seq<Filter>) returns (r: Result<Where>)
      ensures r == WhereOf(filters, catalog, dictionary.lookup)
    {
      var conditions: seq<Condition> := [];
      var i := 0;
      while i < |filters|
        invariant 0 <= i <= |filters|
        invariant WhereOf(filters[..i], catalog, dictionary.lookup) == Ok(All(conditions))
      {
        var f := filters[i];
        assert filters[..i + 1][..i] == filters[..i];
        WhereStops(filters, catalog, dictionary.lookup, i + 1);
        i := i + 1;
        if !ValidFilter(f, catalog) {
          return Error("Unknown field or operator");
        }
        if f.field in catalog.compressed {
          var ids := dictionary.QueryCandidates(f.field, f.op, FilterText(f.value));
          var candidates := set x | x in ids;
          SameIds(ids, candidates, Candidates(dictionary.lookup, f.field, f.op, FilterText(f.value)));
          if candidates == {} {
            return Ok(Never);
          }
          conditions := conditions + [In(f.field, candidates)];
        } else if f.op == "~=" {
          conditions := conditions + [Like(f.field, FilterText(f.value))];
        } else {
          conditions := conditions + [Cmp(f.field, f.op, Bound(f.value))];
        }
      }
      assert filters[..i] == filters;
      r := Ok(All(conditions));
    }

    method ReadCell(field: string, cell: Cell) returns (r: Result<Cell>)
      requires Injective(dictionary.lookup)
      ensures SameAnswer(r, Reported(catalog, dictionary.lookup, field, cell))
    {
      if field !in catalog.compressed || !cell.Int? {
        return Ok(cell);
      }
      var text := dictionary.GetValue(field, cell.n);
      if text.Error? {
        return Error(text.message);
      }
      assert Holds(dictionary.lookup, DictRow(field, text.value, cell.n));
      r := Ok(Text(text.value));
    }

    method ReadRow(fields: seq<string>, id: int, row: Row) returns (r: Result<map<string, Cell>>)
      requires Injective(dictionary.lookup)
      ensures SameAnswer(r, ReportRow(catalog, dictionary.lookup, fields, id, row))
    {
      var out: map<string, Cell> := map[];
      hide Reported, Injective, CellOf;
      var i := 0;
      while i < |fields|
        invariant 0 <= i <= |fields|
        invariant ReportRow(catalog, dictionary.lookup, fields[..i], id, row) == Ok(out)
      {
        assert fields[..i + 1][..i] == fields[..i];
        RowStops(catalog, dictionary.lookup, fields, id, row, i + 1);
        var cell := ReadCell(fields[i], CellOf(id, row, fields[i]));
        if cell.Error? {
          return Error(cell.message);
        }
        out := out[fields[i] := cell.value];
        i := i + 1;
      }
      assert fields[..i] == fields;
      r := Ok(out);
    }

    method ReadRows(fields: seq<string>, ids: seq<int>) returns (r: Result<seq<map<string, Cell>>>)
      requires Injective(dictionary.lookup)
      ensures SameAnswer(r, ReportRows(catalog, dictionary.lookup, fields, rows, ids))
    {
      var results: seq<map<string, Cell>> := [];
      hide ReportRow, Injective;
      var i := 0;
      while i < |ids|
        invariant 0 <= i <= |ids|
        invariant ReportRows(catalog, dictionary.lookup, fields, rows, ids[..i]) == Ok(results)
      {
        assert ids[..i + 1][..i] == ids[..i];
        RowsStop(catalog, dictionary.lookup, fields, rows, ids, i + 1);
        var one := ReadRow(fields, ids[i], if ids[i] in rows then rows[ids[i]] else map[]);
        if one.Error? {
          return Error(one.message);
        }
        results := results + [one.value];
        i := i + 1;
      }
      assert ids[..i] == ids;
      r := Ok(results);
    }

    /** order: the matching ids as SQLite's ORDER BY lists them; estimate: its MAX(id) - MIN(id) + 1. */
    method Fetch(fields: seq<string>, filters: seq<Filter>, limit: int, offset: int, order: seq<int>, estimate: nat)
      returns (r: Result<Page>)
      requires Injective(dictionary.lookup) && estimate == EstimateRowCount(rows)
      ensures SameAnswer(r, Query(catalog, dictionary.lookup, rows, fields, filters, limit, offset, order))
    {
      hide WhereOf, Matching, ReportRows, EstimateRowCount, Slice, EffectiveFields, Injective;
      var effective := EffectiveFields(fields, catalog);
      if effective.Error? {
        return Error(effective.message);
      }
      var w := BuildWhereClause(filters);
      if w.Error? {
        return Error(w.message);
      }
      var total := if filters == [] then estimate else |Matching(rows, w.value)|;
      if total == 0 {
        return Ok(Page(0, []));
      }
      if limit < 0 {
        return Error("length_error");
      }
      var results := ReadRows(effective.value, Slice(order, limit, offset));
      if results.Error? {
        return Error(results.message);
      }
      r := Ok(Page(total, results.value));
    }
  }

  lemma SameIds(ids: seq<int>, a: set<int>, b: set<int>)
    requires (forall i :: i in ids <==> i in a) && (forall i :: i in ids <==> i in b)
    ensures a == b
  {
    Subset(a, b);
    Subset(b, a);
  }

  lemma {:induction false} WhereStops(filters: seq<Filter>, cat: Catalog, lookup: Lookup, k: nat)
    requires k <= |filters|
    ensures var w := WhereOf(filters[..k], cat, lookup);
            w.Error? || w.value.Never? ==> WhereOf(filters, cat, lookup) == w
    decreases |filters|
  {
    if k == |filters| {
      assert filters[..k] == filters;
    } else {
      var init := filters[..|filters| - 1];
      WhereStops(init, cat, lookup, k);
      assert init[..k] == filters[..k];
    }
  }

  lemma {:induction false} RowStops(cat: Catalog, lookup: Lookup, fields: seq<string>, id: int, row: Row, k: nat)
    requires k <= |fields|
    ensures ReportRow(cat, lookup, fields[..k], id, row).Error? ==> ReportRow(cat, lookup, fields, id, row).Error?
    decreases |fields|
  {
    if k == |fields| {
      assert fields[..k] == fields;
    } else {
      var init := fields[..|fields| - 1];
      RowStops(cat, lookup, init, id, row, k);
      assert init[..k] == fields[..k];
    }
  }

  lemma {:induction false} RowsStop(cat: Catalog, lookup: Lookup, fields: seq<string>, rows: map<int, Row>,
                                    ids: seq<int>, k: nat)
    requires k <= |ids|
    ensures ReportRows(cat, lookup, fields, rows, ids[..k]).Error? ==> ReportRows(cat, lookup, fields, rows, ids).Error?
    decreases |ids|
  {
    if k == |ids| {
      assert ids[..k] == ids;
    } else {
      var init := ids[..|ids| - 1];
      RowsStop(cat, lookup, fields, rows, init, k);
      assert init[..k] == ids[..k];
    }
  }
}
