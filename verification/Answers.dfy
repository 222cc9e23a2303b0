/** What a query answers, row by row and field by field. */
module Answers {
  import opened Results
  import opened IdSets
  import opened LogTable
  import opened Dictionary
  import opened Queries

  /** The reader can report the cell: an id of a compressed column only if some text has it. */
  ghost predicate Readable(cat: Catalog, lookup: Lookup, field: string, cell: Cell) {
    field in cat.compressed && cell.Int? ==> exists v :: Holds(lookup, DictRow(field, v, cell.n))
  }

  /** What it reports: the cell, or in a compressed column the text of the id. */
  ghost predicate Reads(cat: Catalog, lookup: Lookup, field: string, cell: Cell, value: Cell) {
    if field in cat.compressed && cell.Int? then value.Text? && Holds(lookup, DictRow(field, value.s, cell.n))
    else value == cell
  }

  /** The answer holds exactly the fields asked for, each with what is read of its cell. */
  ghost predicate RowAnswers(cat: Catalog, lookup: Lookup, fields: seq<string>, id: int, row: Row,
                             answer: map<string, Cell>) {
    && (forall f :: f in answer <==> f in fields)
    && (forall f :: f in fields && f in answer ==> Reads(cat, lookup, f, CellOf(id, row, f), answer[f]))
  }

  ghost predicate RowReadable(cat: Catalog, lookup: Lookup, fields: seq<string>, id: int, row: Row) {
    forall f :: f in fields ==> Readable(cat, lookup, f, CellOf(id, row, f))
  }

  lemma ReportedReads(cat: Catalog, lookup: Lookup, field: string, cell: Cell)
    ensures var r := Reported(cat, lookup, field, cell);
            && (r.Ok? <==> Readable(cat, lookup, field, cell))
            && (r.Ok? ==> Reads(cat, lookup, field, cell, r.value))
  {
    hide Holds;
  }

  /** A row is reported with exactly the fields asked for, in whatever order and however often they are named; it is
      an error if and only if some id of it has no text. */
  lemma {:induction false} RowHoldsEveryField(cat: Catalog, lookup: Lookup, fields: seq<string>, id: int, row: Row)
    ensures var r := ReportRow(cat, lookup, fields, id, row);
            && (r.Ok? <==> RowReadable(cat, lookup, fields, id, row))
            && (r.Ok? ==> RowAnswers(cat, lookup, fields, id, row, r.value))
  {
    if fields != [] {
      hide Reported, Readable, Reads, CellOf, RowAnswers, RowReadable;
      var k := |fields| - 1;
      RowHoldsEveryField(cat, lookup, fields[..k], id, row);
      ReportedReads(cat, lookup, fields[k], CellOf(id, row, fields[k]));
      OneMoreFieldReadable(cat, lookup, fields, id, row);
      var before, one := ReportRow(cat, lookup, fields[..k], id, row), Reported(cat, lookup, fields[k],
            CellOf(id, row, fields[k]));
      if before.Ok? && one.Ok? {
        OneMoreFieldAnswers(cat, lookup, fields, id, row, before.value, one.value);
      }
    } else {
      assert RowAnswers(cat, lookup, fields, id, row, map[]);
    }
  }

  lemma OneMoreFieldReadable(cat: Catalog, lookup: Lookup, fields: seq<string>, id: int, row: Row)
    requires fields != []
    ensures var k := |fields| - 1;
            RowReadable(cat, lookup, fields, id, row) <==>
              RowReadable(cat, lookup, fields[..k], id, row)
              && Readable(cat, lookup, fields[k], CellOf(id, row, fields[k]))
  {
    hide Readable, CellOf;
    assert fields == fields[..|fields| - 1] + [fields[|fields| - 1]];
  }

  lemma OneMoreFieldAnswers(cat: Catalog, lookup: Lookup, fields: seq<string>, id: int, row: Row,
                            answer: map<string, Cell>, value: Cell)
    requires fields != [] && RowAnswers(cat, lookup, fields[..|fields| - 1], id, row, answer)
    requires Reads(cat, lookup, fields[|fields| - 1], CellOf(id, row, fields[|fields| - 1]), value)
    ensures RowAnswers(cat, lookup, fields, id, row, answer[fields[|fields| - 1] := value])
  {
    hide Reads, CellOf;
    assert fields == fields[..|fields| - 1] + [fields[|fields| - 1]];
  }

  function RowAt(rows: map<int, Row>, id: int): Row { if id in rows then rows[id] else map[] }

  /** The answers are those of the rows, one for one and in order. */
  ghost predicate RowsAnswer(cat: Catalog, lookup: Lookup, fields: seq<string>, rows: map<int, Row>, ids: seq<int>,
                             answers: seq<map<string, Cell>>) {
    && |answers| == |ids|
    && forall k :: 0 <= k < |ids| ==> RowAnswers(cat, lookup, fields, ids[k], RowAt(rows, ids[k]), answers[k])
  }

  ghost predicate RowsReadable(cat: Catalog, lookup: Lookup, fields: seq<string>, rows: map<int, Row>, ids: seq<int>) {
    forall k :: 0 <= k < |ids| ==> RowReadable(cat, lookup, fields, ids[k], RowAt(rows, ids[k]))
  }

  lemma {:induction false} RowsAreThoseListed(cat: Catalog, lookup: Lookup, fields: seq<string>, rows: map<int, Row>,
                                              ids: seq<int>)
    ensures var r := ReportRows(cat, lookup, fields, rows, ids);
            && (r.Ok? <==> RowsReadable(cat, lookup, fields, rows, ids))
            && (r.Ok? ==> RowsAnswer(cat, lookup, fields, rows, ids, r.value))
  {
    hide ReportRow, RowReadable, RowAnswers, RowsAnswer, RowsReadable;
    NoRowsAnswer(cat, lookup, fields, rows);
    if ids != [] {
      var k := |ids| - 1;
      RowsAreThoseListed(cat, lookup, fields, rows, ids[..k]);
      RowHoldsEveryField(cat, lookup, fields, ids[k], RowAt(rows, ids[k]));
      OneMoreReadable(cat, lookup, fields, rows, ids);
      var before, one := ReportRows(cat, lookup, fields, rows, ids[..k]), ReportRow(cat, lookup, fields, ids[k],
            RowAt(rows, ids[k]));
      if before.Ok? && one.Ok? {
        OneMoreAnswer(cat, lookup, fields, rows, ids, before.value, one.value);
      }
    }
  }

  lemma NoRowsAnswer(cat: Catalog, lookup: Lookup, fields: seq<string>, rows: map<int, Row>)
    ensures RowsAnswer(cat, lookup, fields, rows, [], []) && RowsReadable(cat, lookup, fields, rows, [])
  {
  }

  lemma OneMoreReadable(cat: Catalog, lookup: Lookup, fields: seq<string>, rows: map<int, Row>, ids: seq<int>)
    requires ids != []
    ensures var k := |ids| - 1;
            RowsReadable(cat, lookup, fields, rows, ids) <==>
              RowsReadable(cat, lookup, fields, rows, ids[..k])
              && RowReadable(cat, lookup, fields, ids[k], RowAt(rows, ids[k]))
  {
    hide RowReadable, RowAt;
    var k := |ids| - 1;
    assert forall j :: 0 <= j < k ==> ids[..k][j] == ids[j];
    if RowsReadable(cat, lookup, fields, rows, ids) {
      forall j | 0 <= j < k ensures RowReadable(cat, lookup, fields, ids[..k][j], RowAt(rows, ids[..k][j])) {
        assert ids[..k][j] == ids[j];
      }
    }
  }

  lemma OneMoreAnswer(cat: Catalog, lookup: Lookup, fields: seq<string>, rows: map<int, Row>, ids: seq<int>,
                      answers: seq<map<string, Cell>>, answer: map<string, Cell>)
    requires ids != [] && RowsAnswer(cat, lookup, fields, rows, ids[..|ids| - 1], answers)
    requires RowAnswers(cat, lookup, fields, ids[|ids| - 1], RowAt(rows, ids[|ids| - 1]), answer)
    ensures RowsAnswer(cat, lookup, fields, rows, ids, answers + [answer])
  {
    hide RowAnswers, RowAt;
    forall j | 0 <= j < |ids|
      ensures RowAnswers(cat, lookup, fields, ids[j], RowAt(rows, ids[j]), (answers + [answer])[j])
    {
      if j < |ids| - 1 {
        assert ids[..|ids| - 1][j] == ids[j];
      }
    }
  }

  /** Where the page begins among the listed rows, and how many of them it holds. */
  function PageStart(offset: int): nat { if offset < 0 then 0 else offset }

  function PageLength(listed: nat, limit: nat, offset: int): nat {
    var rest := if listed < PageStart(offset) then 0 else listed - PageStart(offset);
    if rest < limit then rest else limit
  }

  function PageId(order: seq<int>, limit: nat, offset: int, k: nat): int
    requires k < PageLength(|order|, limit, offset)
  {
    order[PageStart(offset) + k]
  }

  lemma SliceIsPage(order: seq<int>, limit: nat, offset: int)
    ensures |Slice(order, limit, offset)| == PageLength(|order|, limit, offset)
    ensures forall k :: 0 <= k < PageLength(|order|, limit, offset) ==>
              Slice(order, limit, offset)[k] == PageId(order, limit, offset, k)
  {
  }

  /** The names asked for: a lone star stands for every column of the catalog, in order. */
  predicate AskedNames(fields: seq<string>, cat: Catalog, names: seq<string>) {
    if fields == ["*"] then |names| == |cat.columns| && forall k :: 0 <= k < |names| ==> names[k] == cat.columns[k].name
    else names == fields && forall f :: f in fields ==> exists c :: c in cat.columns && c.name == f
  }

  lemma {:induction false} NamesAreColumns(columns: seq<Column>)
    ensures |Names(columns)| == |columns|
    ensures forall k :: 0 <= k < |columns| ==> Names(columns)[k] == columns[k].name
  {
    if columns != [] {
      NamesAreColumns(columns[..|columns| - 1]);
    }
  }

  lemma FieldsAreAsked(fields: seq<string>, cat: Catalog)
    ensures var names := EffectiveFields(fields, cat);
            && (names.Error? <==> fields != ["*"] && exists f :: f in fields && !cat.HasColumn(f))
            && (names.Ok? ==> AskedNames(fields, cat, names.value))
  {
    NamesAreColumns(cat.columns);
  }

  /** Result k is the answer of the listed row at offset + k; there are as many as the page has room for. */
  ghost predicate PageAnswers(cat: Catalog, lookup: Lookup, rows: map<int, Row>, names: seq<string>, limit: nat,
                              offset: int, order: seq<int>, results: seq<map<string, Cell>>) {
    && |results| == PageLength(|order|, limit, offset)
    && forall k :: 0 <= k < |results| ==>
         var id := PageId(order, limit, offset, k);
         RowAnswers(cat, lookup, names, id, RowAt(rows, id), results[k])
  }

  ghost predicate PageReadable(cat: Catalog, lookup: Lookup, rows: map<int, Row>, names: seq<string>, limit: nat,
                               offset: int, order: seq<int>) {
    forall k :: 0 <= k < PageLength(|order|, limit, offset) ==>
      var id := PageId(order, limit, offset, k);
      RowReadable(cat, lookup, names, id, RowAt(rows, id))
  }

  lemma PageIsThatListed(cat: Catalog, lookup: Lookup, rows: map<int, Row>, names: seq<string>, limit: nat,
                         offset: int, order: seq<int>)
    ensures var r := ReportRows(cat, lookup, names, rows, Slice(order, limit, offset));
            && (r.Ok? <==> PageReadable(cat, lookup, rows, names, limit, offset, order))
            && (r.Ok? ==> PageAnswers(cat, lookup, rows, names, limit, offset, order, r.value))
  {
    RowsAreThoseListed(cat, lookup, names, rows, Slice(order, limit, offset));
    SliceIsPage(order, limit, offset);
    hide ReportRows, Slice, RowAnswers, RowReadable, PageLength, RowAt, PageId;
    var ids, n := Slice(order, limit, offset), PageLength(|order|, limit, offset);
    if RowsReadable(cat, lookup, names, rows, ids) {
      forall k | 0 <= k < n
        ensures RowReadable(cat, lookup, names, PageId(order, limit, offset, k),
                            RowAt(rows, PageId(order, limit, offset, k)))
      {
        assert ids[k] == PageId(order, limit, offset, k);
      }
    }
  }

  /** The number of rows the clause selects; without filters the span of ids. */
  ghost predicate TotalIs(filters: seq<Filter>, rows: map<int, Row>, w: Where, total: nat) {
    if filters != [] then total == |set id | id in rows && Selects(w, id, rows[id])|
    else if rows.Keys == {} then total == 0
    else
      exists lo, hi :: lo in rows && hi in rows && (forall id :: id in rows ==> lo <= id <= hi) && total == hi - lo + 1
  }

  lemma TotalIsCount(filters: seq<Filter>, rows: map<int, Row>, w: Where)
    ensures TotalIs(filters, rows, w, TotalOf(filters, rows, w))
  {
    hide Selects;
    if filters == [] && rows.Keys != {} {
      var lo, hi := MinOf(rows.Keys), MaxOf(rows.Keys);
      assert lo in rows && hi in rows;
      forall id | id in rows ensures lo <= id <= hi {
        assert id in rows.Keys;
      }
    }
  }

  /** The answer to a query with these names and this total: an error if and only if there is something to answer and
      the limit is negative or some row of the page has an id without a text among the names. */
  ghost predicate Answers(cat: Catalog, lookup: Lookup, rows: map<int, Row>, names: seq<string>, total: nat,
                          limit: int, offset: int, order: seq<int>, answer: Result<Page>) {
    if total == 0 then answer == Ok(Page(0, []))
    else if limit < 0 || !PageReadable(cat, lookup, rows, names, limit, offset, order) then answer.Error?
    else
      && answer.Ok? && answer.value.total == total
      && PageAnswers(cat, lookup, rows, names, limit, offset, order, answer.value.results)
  }

  /** What Query answers, whatever the table, the dictionary and the call: an error for an unknown field or an invalid
      filter; otherwise the rows of the page, with the names asked for and the number of rows the filters select. */
  lemma QueryAnswers(cat: Catalog, lookup: Lookup, rows: map<int, Row>, fields: seq<string>, filters: seq<Filter>,
                     limit: int, offset: int, order: seq<int>)
    ensures var answer := Query(cat, lookup, rows, fields, filters, limit, offset, order);
            if EffectiveFields(fields, cat).Error? || WhereOf(filters, cat, lookup).Error? then answer.Error?
            else
              exists names, total ::
                && AskedNames(fields, cat, names) && TotalIs(filters, rows, WhereOf(filters, cat, lookup).value, total)
                && Answers(cat, lookup, rows, names, total, limit, offset, order, answer)
  {
    FieldsAreAsked(fields, cat);
    hide EffectiveFields, WhereOf, TotalOf, ReportRows, Slice, AskedNames, TotalIs, PageAnswers, PageReadable;
    if EffectiveFields(fields, cat).Ok? && WhereOf(filters, cat, lookup).Ok? {
      var names, w := EffectiveFields(fields, cat).value, WhereOf(filters, cat, lookup).value;
      TotalIsCount(filters, rows, w);
      if limit >= 0 {
        PageIsThatListed(cat, lookup, rows, names, limit, offset, order);
      }
      var total := TotalOf(filters, rows, w);
      assert AskedNames(fields, cat, names) && TotalIs(filters, rows, w, total);
      assert Answers(cat, lookup, rows, names, total, limit, offset, order,
                     Query(cat, lookup, rows, fields, filters, limit, offset, order));
    }
  }
}
