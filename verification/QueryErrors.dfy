/** Exactly when the query reports an error that a caller might expect of it, and inputs on which it does not. */
module QueryErrors {
  import opened Results
  import opened IdSets
  import opened LogTable
  import opened Dictionary
  import opened Queries
  import opened FastCount

  // ── Invalid filters ────────────────────────────────────────────────────────

  /** A valid filter on a compressed column that no known text matches: it ends the clause as 1=0. */
  predicate StopsEarly(f: Filter, cat: Catalog, lookup: Lookup) {
    ValidFilter(f, cat) && f.field in cat.compressed && Candidates(lookup, f.field, f.op, FilterText(f.value)) == {}
  }

  predicate FirstInvalid(filters: seq<Filter>, cat: Catalog, lookup: Lookup, k: int) {
    && 0 <= k < |filters| && !ValidFilter(filters[k], cat)
    && forall j :: 0 <= j < k ==> !StopsEarly(filters[j], cat, lookup)
  }

  predicate FirstStop(filters: seq<Filter>, cat: Catalog, lookup: Lookup, k: int) {
    0 <= k < |filters| && StopsEarly(filters[k], cat, lookup) && forall j :: 0 <= j < k ==> ValidFilter(filters[j], cat)
  }

  /** The clause is an error if and only if some filter is invalid and no filter before it is a valid one without
      candidates; it is 1=0 if and only if there is such a filter with only valid ones before it. */
  lemma {:induction false} WhereFailsExactlyWhen(filters: seq<Filter>, cat: Catalog, lookup: Lookup)
    ensures WhereOf(filters, cat, lookup).Error? <==> exists k :: FirstInvalid(filters, cat, lookup, k)
    ensures WhereOf(filters, cat, lookup) == Ok(Never) <==> exists k :: FirstStop(filters, cat, lookup, k)
  {
    if filters != [] {
      var n := |filters| - 1;
      var init := filters[..n];
      WhereFailsExactlyWhen(init, cat, lookup);
      InvalidOf(init, filters[n], cat, lookup);
      StopOf(init, filters[n], cat, lookup);
      assert filters == init + [filters[n]];
      if exists k :: FirstInvalid(init, cat, lookup, k) {
        NotBoth(init, cat, lookup);
      }
      hide FirstInvalid, FirstStop, Candidates;
    }
  }

  lemma InvalidOf(init: seq<Filter>, f: Filter, cat: Catalog, lookup: Lookup)
    ensures (exists k :: FirstInvalid(init + [f], cat, lookup, k))
       <==> (exists k :: FirstInvalid(init, cat, lookup, k))
            || (!ValidFilter(f, cat) && !exists k :: FirstStop(init, cat, lookup, k))
  {
    hide StopsEarly, ValidFilter;
    var n, filters := |init|, init + [f];
    assert forall j {:trigger init[j]} :: 0 <= j < n ==> filters[j] == init[j];
    if k :| FirstInvalid(filters, cat, lookup, k) {
      if k < n {
        assert FirstInvalid(init, cat, lookup, k);
      } else {
        forall j ensures !FirstStop(init, cat, lookup, j) {
          assert 0 <= j < n ==> !StopsEarly(filters[j], cat, lookup);
        }
      }
    }
    if k :| FirstInvalid(init, cat, lookup, k) {
      assert FirstInvalid(filters, cat, lookup, k);
    } else if !ValidFilter(f, cat) && !exists k :: FirstStop(init, cat, lookup, k) {
      NoneInvalid(init, cat, lookup, n);
      assert FirstInvalid(filters, cat, lookup, n);
    }
  }

  /** Where neither an invalid filter nor an early stop comes first, all filters are valid and none stops. */
  lemma {:induction false} NoneInvalid(filters: seq<Filter>, cat: Catalog, lookup: Lookup, n: nat)
    requires n <= |filters|
    requires !exists k :: FirstInvalid(filters, cat, lookup, k)
    requires !exists k :: FirstStop(filters, cat, lookup, k)
    ensures forall j :: 0 <= j < n ==> ValidFilter(filters[j], cat) && !StopsEarly(filters[j], cat, lookup)
  {
    hide StopsEarly, ValidFilter;
    if n > 0 {
      NoneInvalid(filters, cat, lookup, n - 1);
      assert !FirstInvalid(filters, cat, lookup, n - 1) && !FirstStop(filters, cat, lookup, n - 1);
    }
  }

  lemma StopOf(init: seq<Filter>, f: Filter, cat: Catalog, lookup: Lookup)
    ensures (exists k :: FirstStop(init + [f], cat, lookup, k))
       <==> (exists k :: FirstStop(init, cat, lookup, k))
            || (StopsEarly(f, cat, lookup) && !exists k :: FirstInvalid(init, cat, lookup, k))
  {
    hide StopsEarly, ValidFilter;
    var n, filters := |init|, init + [f];
    assert forall j {:trigger init[j]} :: 0 <= j < n ==> filters[j] == init[j];
    if k :| FirstStop(filters, cat, lookup, k) {
      if k < n {
        assert FirstStop(init, cat, lookup, k);
      } else {
        forall j ensures !FirstInvalid(init, cat, lookup, j) {
          assert 0 <= j < n ==> ValidFilter(filters[j], cat);
        }
      }
    }
    if k :| FirstStop(init, cat, lookup, k) {
      assert FirstStop(filters, cat, lookup, k);
    } else if StopsEarly(f, cat, lookup) && !exists k :: FirstInvalid(init, cat, lookup, k) {
      NoneInvalid(init, cat, lookup, n);
      assert FirstStop(filters, cat, lookup, n);
    }
  }

  /** An invalid filter and an early stop cannot both come first. */
  lemma NotBoth(filters: seq<Filter>, cat: Catalog, lookup: Lookup)
    requires exists k :: FirstInvalid(filters, cat, lookup, k)
    ensures !exists k :: FirstStop(filters, cat, lookup, k)
  {
    var k :| FirstInvalid(filters, cat, lookup, k);
    forall j ensures !FirstStop(filters, cat, lookup, j) {
    }
  }

  /** Without compression every invalid filter is an error. With it the query errs if and only if no valid filter
      without candidates comes first; otherwise it answers as if nothing matched. */
  lemma InvalidFilterIsReportedExactlyWhen(filters: seq<Filter>, cat: Catalog, lookup: Lookup)
    requires exists k :: 0 <= k < |filters| && !ValidFilter(filters[k], cat)
    ensures WhereOf(filters, Uncompressed(cat), map[]).Error?
    ensures WhereOf(filters, cat, lookup).Error? <==> !exists k :: FirstStop(filters, cat, lookup, k)
    ensures !WhereOf(filters, cat, lookup).Error? ==> WhereOf(filters, cat, lookup) == Ok(Never)
  {
    var k :| 0 <= k < |filters| && !ValidFilter(filters[k], cat);
    WhereFailsExactlyWhen(filters, cat, lookup);
    WhereFailsExactlyWhen(filters, Uncompressed(cat), map[]);
    assert FirstInvalid(filters, Uncompressed(cat), map[], k);
    if exists j :: FirstInvalid(filters, cat, lookup, j) {
      NotBoth(filters, cat, lookup);
    } else if !exists j :: FirstStop(filters, cat, lookup, j) {
      NoneInvalid(filters, cat, lookup, |filters|);
    }
  }

  const CATALOG := Catalog([Column("id", true, true), Column("level", false, false)], {"level"}, "level", true,
                           Unchanged)

  /** A filter on an unknown column passes unnoticed behind one on a text nobody has logged. */
  lemma InvalidFilterCanPassUnnoticed()
    ensures var known, unknown := Filter("level", "=", JText("X")), Filter("nosuch", "=", JInt(1));
            && WhereOf([unknown], CATALOG, map[]).Error?
            && WhereOf([known, unknown], CATALOG, map[]) == Ok(Never)
  {
    var known, unknown := Filter("level", "=", JText("X")), Filter("nosuch", "=", JInt(1));
    assert CATALOG.columns[1] in CATALOG.columns && !CATALOG.HasColumn("nosuch");
    assert StopsEarly(known, CATALOG, map[]);
    assert FirstInvalid([unknown], CATALOG, map[], 0) && FirstStop([known, unknown], CATALOG, map[], 0);
    WhereFailsExactlyWhen([unknown], CATALOG, map[]);
    WhereFailsExactlyWhen([known, unknown], CATALOG, map[]);
  }

  // ── Negative limits ────────────────────────────────────────────────────────

  /** With valid fields and filters a negative limit is an error if and only if some row matches. */
  lemma NegativeLimitFailsExactlyWhen(cat: Catalog, lookup: Lookup, rows: map<int, Row>, fields: seq<string>,
                                      filters: seq<Filter>, limit: int, offset: int, order: seq<int>)
    requires limit < 0 && EffectiveFields(fields, cat).Ok? && WhereOf(filters, cat, lookup).Ok?
    ensures var answer := Query(cat, lookup, rows, fields, filters, limit, offset, order);
            && (answer.Error? <==> Matching(rows, WhereOf(filters, cat, lookup).value) != {})
            && (answer.Ok? ==> answer.value == Page(0, []))
  {
    var w := WhereOf(filters, cat, lookup).value;
    EmptyTotal(filters, rows, w, cat, lookup);
    hide TotalOf, Matching, WhereOf, EffectiveFields;
  }

  lemma EmptyTotal(filters: seq<Filter>, rows: map<int, Row>, w: Where, cat: Catalog, lookup: Lookup)
    requires WhereOf(filters, cat, lookup) == Ok(w)
    ensures TotalOf(filters, rows, w) == 0 <==> Matching(rows, w) == {}
  {
    if filters == [] {
      EstimateBoundsCount(rows);
      NoConditionsMatchAll(rows);
      hide EstimateRowCount, Matching;
      assert rows.Keys == {} <==> |rows| == 0 by { assert |rows.Keys| == |rows|; }
    } else {
      hide Matching;
    }
  }

  lemma NoConditionsMatchAll(rows: map<int, Row>)
    ensures Matching(rows, All([])) == rows.Keys
  {
    forall id | id in rows.Keys ensures id in Matching(rows, All([])) {
    }
    Subset(rows.Keys, Matching(rows, All([])));
    Subset(Matching(rows, All([])), rows.Keys);
  }

  /** The same call succeeds on an empty table and fails on a table with a row. */
  lemma NegativeLimitDependsOnTheTable(row: Row)
    ensures Query(CATALOG, map[], map[], ["*"], [], -1, 0, []) == Ok(Page(0, []))
    ensures Query(CATALOG, map[], map[1 := row], ["*"], [], -1, 0, [1]).Error?
  {
    NegativeLimitFailsExactlyWhen(CATALOG, map[], map[], ["*"], [], -1, 0, []);
    NegativeLimitFailsExactlyWhen(CATALOG, map[], map[1 := row], ["*"], [], -1, 0, [1]);
    NoConditionsMatchAll(map[]);
    NoConditionsMatchAll(map[1 := row]);
    var rows: map<int, Row> := map[1 := row];
    assert 1 in rows.Keys;
  }
}
