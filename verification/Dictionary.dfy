/** The column dictionary: per compressed column an injective numbering of the texts stored there. */
module Dictionary {
  import opened Results
  import opened IdSets
  import opened LogTable

  type Lookup = map<string, map<string, int>>

  function Known(lookup: Lookup, column: string): map<string, int> {
    if column in lookup then lookup[column] else map[]
  }

  ghost function NextValueId(known: map<string, int>): int {
    if known == map[] then 1
    else
      var v :| v in known;
      assert known[v] in known.Values;
      MaxOf(known.Values) + 1
  }

  /** Memory and table while a transaction runs; budget is how many further dictionary inserts SQLite accepts. */
  datatype Tx = Tx(lookup: Lookup, dict: seq<DictRow>, budget: nat)

  datatype Assigned = Assigned(tx: Tx, id: Option<int>)

  /** The id of a text, persisting a new one first; kept is what the table gives back for it. A failed insert leaves
      the column present but no entry. */
  ghost function Assign(tx: Tx, column: string, value: string, kept: string): Assigned {
    var known := Known(tx.lookup, column);
    if value in known then Assigned(tx, Some(known[value]))
    else if tx.budget == 0 then Assigned(tx.(lookup := tx.lookup[column := known]), None)
    else
      var id := NextValueId(known);
      Assigned(Tx(tx.lookup[column := known[value := id]], tx.dict + [DictRow(column, kept, id)], tx.budget - 1),
               Some(id))
  }

  /** What a restart rebuilds from the dictionary table. */
  function Load(dict: seq<DictRow>): Lookup {
    if dict == [] then map[]
    else
      var before, r := Load(dict[..|dict| - 1]), dict[|dict| - 1];
      before[r.column := Known(before, r.column)[r.value := r.id]]
  }

  // ── Invariants ─────────────────────────────────────────────────────────────

  predicate Holds(lookup: Lookup, r: DictRow) {
    r.column in lookup && r.value in lookup[r.column] && lookup[r.column][r.value] == r.id
  }

  /** No two texts of a column share an id. */
  ghost predicate Injective(lookup: Lookup) {
    forall a, b :: Holds(lookup, a) && Holds(lookup, b) && a.column == b.column && a.id == b.id ==> a.value == b.value
  }

  /** The entry is in memory, and the table has its row. */
  predicate Persisted(lookup: Lookup, dict: seq<DictRow>, cat: Catalog, r: DictRow) {
    Holds(lookup, r) && DictRow(r.column, cat.Kept(r.value), r.id) in dict
  }

  /** Each new row of a column has a greater id than those before it. */
  ghost predicate Rising(dict: seq<DictRow>) {
    forall i, j :: 0 <= i < j < |dict| && dict[i].column == dict[j].column ==> dict[i].id < dict[j].id
  }

  /** The table holds texts it gives back. */
  ghost predicate Settled(dict: seq<DictRow>, cat: Catalog) {
    forall r :: r in dict ==> cat.Kept(r.value) == r.value
  }

  /** The row is that of a persisted entry, or a later row of such an entry gives back the same text. */
  ghost predicate Covered(lookup: Lookup, dict: seq<DictRow>, cat: Catalog, row: DictRow) {
    exists x ::
      Persisted(lookup, dict, cat, x) && x.column == row.column && cat.Kept(x.value) == row.value && row.id <= x.id
  }

  ghost predicate Agrees(lookup: Lookup, dict: seq<DictRow>, cat: Catalog) {
    && Injective(lookup) && Rising(dict) && Settled(dict, cat)
    && forall row :: row in dict ==> Covered(lookup, dict, cat, row)
  }

  /** Everything in memory is persisted: so while no Insert has been rolled back. */
  ghost predicate InStep(lookup: Lookup, dict: seq<DictRow>, cat: Catalog) {
    Agrees(lookup, dict, cat) && forall r :: Holds(lookup, r) ==> Persisted(lookup, dict, cat, r)
  }

  /** Memory only ever learns. */
  ghost predicate Remembers(lookup: Lookup, more: Lookup) {
    forall r :: Holds(lookup, r) ==> Holds(more, r)
  }

  /** And numbers what it learns upwards. */
  ghost predicate Extends(lookup: Lookup, more: Lookup) {
    && Remembers(lookup, more)
    && forall x, r :: Holds(more, x) && !Holds(lookup, x) && Holds(lookup, r) && r.column == x.column ==> r.id < x.id
  }

  lemma NextValueIdIsFresh(known: map<string, int>, v: string)
    requires v in known
    ensures known[v] < NextValueId(known)
  {
    assert known[v] in known.Values;
  }

  /** The next id of a column is above those of its entries in memory and of its rows in the table. */
  lemma NextValueIdIsAbove(lookup: Lookup, dict: seq<DictRow>, cat: Catalog, r: DictRow)
    requires Agrees(lookup, dict, cat) && (Holds(lookup, r) || r in dict)
    ensures r.id < NextValueId(Known(lookup, r.column))
  {
    hide NextValueId, Catalog.Kept, Rising, Settled, Injective;
    if Holds(lookup, r) {
      NextValueIdIsFresh(Known(lookup, r.column), r.value);
    } else {
      var x := CoveringEntry(lookup, dict, cat, r);
      NextValueIdIsFresh(Known(lookup, r.column), x.value);
    }
  }

  /** A table that grew, under a memory that learnt, still covers the old rows. */
  lemma StaysCovered(lookup: Lookup, dict: seq<DictRow>, more: Lookup, longer: seq<DictRow>, cat: Catalog, row: DictRow)
    requires Covered(lookup, dict, cat, row) && Remembers(lookup, more) && forall r :: r in dict ==> r in longer
    ensures Covered(more, longer, cat, row)
  {
    var x :|
      Persisted(lookup, dict, cat, x) && x.column == row.column && cat.Kept(x.value) == row.value && row.id <= x.id;
    assert Persisted(more, longer, cat, x);
  }

  /** A new entry of the memory with a greater id than those of its column. */
  lemma LearningKeepsInjective(lookup: Lookup, after: Lookup, added: DictRow)
    requires Injective(lookup) && forall x :: Holds(after, x) <==> Holds(lookup, x) || x == added
    requires forall x :: Holds(lookup, x) && x.column == added.column ==> x.id < added.id
    ensures Injective(after)
  {
    hide Holds;
  }

  /** A new row with a greater id than those of its column. */
  lemma RowKeepsRising(dict: seq<DictRow>, row: DictRow)
    requires Rising(dict) && forall r :: r in dict && r.column == row.column ==> r.id < row.id
    ensures Rising(dict + [row])
  {
  }

  /** The entry a first assignment adds to memory, and the row it adds to the table. */
  lemma LearningKeepsAgreement(lookup: Lookup, dict: seq<DictRow>, after: Lookup, cat: Catalog, added: DictRow)
    requires Agrees(lookup, dict, cat) && added.id == NextValueId(Known(lookup, added.column))
    requires forall x :: Holds(after, x) <==> Holds(lookup, x) || x == added
    ensures var longer := dict + [DictRow(added.column, cat.Kept(added.value), added.id)];
            Agrees(after, longer, cat) && (InStep(lookup, dict, cat) ==> InStep(after, longer, cat))
  {
    hide NextValueId, Holds, Covered, Injective, Rising;
    var row := DictRow(added.column, cat.Kept(added.value), added.id);
    var longer := dict + [row];
    forall r | Holds(lookup, r) || r in dict ensures r.id < NextValueId(Known(lookup, r.column)) {
      NextValueIdIsAbove(lookup, dict, cat, r);
    }
    LearningKeepsInjective(lookup, after, added);
    RowKeepsRising(dict, row);
    KeptIsKept(cat, added.value);
    assert row in longer;
    forall r ensures r in longer <==> r in dict || r == row {
    }
    hide Catalog.Kept;
    forall r | r in longer ensures Covered(after, longer, cat, r) {
      if r in dict {
        StaysCovered(lookup, dict, after, longer, cat, r);
      } else {
        NewRowIsCovered(after, longer, cat, added);
      }
    }
  }

  lemma NewRowIsCovered(after: Lookup, longer: seq<DictRow>, cat: Catalog, added: DictRow)
    requires Persisted(after, longer, cat, added)
    ensures Covered(after, longer, cat, DictRow(added.column, cat.Kept(added.value), added.id))
  {
  }

  /** What one assignment adds to memory: nothing, or one entry. */
  lemma AssignLearns(tx: Tx, column: string, value: string, kept: string, x: DictRow)
    ensures var a, known := Assign(tx, column, value, kept), Known(tx.lookup, column);
            Holds(a.tx.lookup, x) <==>
              || Holds(tx.lookup, x)
              || (value !in known && tx.budget > 0 && x == DictRow(column, value, NextValueId(known)))
    ensures var a := Assign(tx, column, value, kept);
            a.id.Some? ==> Holds(a.tx.lookup, DictRow(column, value, a.id.value))
  {
    hide NextValueId;
  }

  lemma AssignExtends(tx: Tx, column: string, value: string, kept: string)
    ensures Extends(tx.lookup, Assign(tx, column, value, kept).tx.lookup)
  {
    var after := Assign(tx, column, value, kept).tx.lookup;
    forall x ensures Holds(tx.lookup, x) ==> Holds(after, x) {
      AssignLearns(tx, column, value, kept, x);
    }
    forall x, r | Holds(after, x) && !Holds(tx.lookup, x) && Holds(tx.lookup, r) && r.column == x.column
      ensures r.id < x.id
    {
      AssignLearns(tx, column, value, kept, x);
      NextValueIdIsFresh(Known(tx.lookup, column), r.value);
      hide NextValueId, Assign;
    }
  }

  lemma ExtendsTwice(a: Lookup, b: Lookup, c: Lookup)
    requires Extends(a, b) && Extends(b, c)
    ensures Extends(a, c)
  {
    hide Holds;
  }

  /** Assigning keeps the numbering injective, memory ahead of the table or in step with it, and forgets nothing. */
  lemma AssignKeepsAgreement(tx: Tx, cat: Catalog, column: string, value: string)
    requires Agrees(tx.lookup, tx.dict, cat)
    ensures var a := Assign(tx, column, value, cat.Kept(value));
            && Agrees(a.tx.lookup, a.tx.dict, cat) && tx.dict <= a.tx.dict
            && (InStep(tx.lookup, tx.dict, cat) ==> InStep(a.tx.lookup, a.tx.dict, cat))
  {
    var known := Known(tx.lookup, column);
    var after := Assign(tx, column, value, cat.Kept(value)).tx.lookup;
    hide NextValueId, Catalog.Kept;
    forall x
      ensures Holds(after, x) <==>
        Holds(tx.lookup, x) || (value !in known && tx.budget > 0 && x == DictRow(column, value, NextValueId(known)))
    {
      AssignLearns(tx, column, value, cat.Kept(value), x);
    }
    hide Agrees, InStep, Holds;
    if value !in known && tx.budget > 0 {
      LearningKeepsAgreement(tx.lookup, tx.dict, after, cat, DictRow(column, value, NextValueId(known)));
    } else {
      SameEntriesAgree(tx.lookup, after, tx.dict, cat);
    }
  }

  lemma SameEntriesAgree(lookup: Lookup, after: Lookup, dict: seq<DictRow>, cat: Catalog)
    requires forall x :: Holds(after, x) <==> Holds(lookup, x)
    ensures Agrees(lookup, dict, cat) ==> Agrees(after, dict, cat)
    ensures InStep(lookup, dict, cat) ==> InStep(after, dict, cat)
  {
    forall row | Covered(lookup, dict, cat, row) ensures Covered(after, dict, cat, row) {
      StaysCovered(lookup, dict, after, dict, cat, row);
    }
  }

  /** A rolled-back transaction leaves memory ahead of the table. */
  lemma AheadStillAgrees(lookup: Lookup, more: Lookup, dict: seq<DictRow>, cat: Catalog)
    requires Agrees(lookup, dict, cat) && Remembers(lookup, more) && Injective(more)
    ensures Agrees(more, dict, cat)
  {
    forall row | row in dict ensures Covered(more, dict, cat, row) {
      StaysCovered(lookup, dict, more, dict, cat, row);
    }
  }

  // ── Restarts ───────────────────────────────────────────────────────────────

  /** The last row of its column for its text. */
  ghost predicate LastRow(dict: seq<DictRow>, r: DictRow) {
    r in dict && forall q :: q in dict && q.column == r.column && q.value == r.value ==> q.id <= r.id
  }

  lemma {:induction false} LoadHoldsLastRows(dict: seq<DictRow>, r: DictRow)
    requires Rising(dict)
    ensures Holds(Load(dict), r) <==> LastRow(dict, r)
  {
    if dict != [] {
      var k := |dict| - 1;
      var init, last := dict[..k], dict[k];
      LoadHoldsLastRows(init, r);
      assert dict == init + [last];
      forall q | q in init && q.column == last.column ensures q.id < last.id {
        var i :| 0 <= i < k && init[i] == q;
        assert dict[i] == q;
      }
    }
  }

  lemma OneRowPerId(dict: seq<DictRow>, a: DictRow, b: DictRow)
    requires Rising(dict) && a in dict && b in dict && a.column == b.column && a.id == b.id
    ensures a == b
  {
    var i :| 0 <= i < |dict| && dict[i] == a;
    var j :| 0 <= j < |dict| && dict[j] == b;
  }

  /** The last row for a text exists if any does. */
  lemma {:induction false} LastRowExists(dict: seq<DictRow>, row: DictRow) returns (r: DictRow)
    requires Rising(dict) && row in dict
    ensures LastRow(dict, r) && r.column == row.column && r.value == row.value && row.id <= r.id
  {
    var k := |dict| - 1;
    var init, last := dict[..k], dict[k];
    assert dict == init + [last];
    forall q | q in init && q.column == last.column ensures q.id < last.id {
      var i :| 0 <= i < k && init[i] == q;
      assert dict[i] == q;
    }
    if last.column == row.column && last.value == row.value {
      r := last;
    } else {
      r := LastRowExists(init, row);
    }
  }

  /** What is loaded is in the table. */
  lemma LoadIsPersisted(dict: seq<DictRow>, cat: Catalog, r: DictRow)
    requires Rising(dict) && Settled(dict, cat) && Holds(Load(dict), r)
    ensures Persisted(Load(dict), dict, cat, r) && r in dict
  {
    LoadHoldsLastRows(dict, r);
    hide Rising, Holds, Load, Catalog.Kept;
  }

  lemma LoadIsInjective(dict: seq<DictRow>)
    requires Rising(dict)
    ensures Injective(Load(dict))
  {
    var lookup := Load(dict);
    forall a, b | Holds(lookup, a) && Holds(lookup, b) && a.column == b.column && a.id == b.id
      ensures a.value == b.value
    {
      LoadHoldsLastRows(dict, a);
      LoadHoldsLastRows(dict, b);
      hide Rising, Holds, Load;
      OneRowPerId(dict, a, b);
    }
  }

  lemma LoadCovers(dict: seq<DictRow>, cat: Catalog, row: DictRow)
    requires Rising(dict) && Settled(dict, cat) && row in dict
    ensures Covered(Load(dict), dict, cat, row)
  {
    hide Rising, Holds, Load, Catalog.Kept;
    var r := LastRowExists(dict, row);
    LoadHoldsLastRows(dict, r);
    hide LastRow;
    assert Persisted(Load(dict), dict, cat, r);
  }

  /** After a restart memory is in step with the table again, whatever the table gave back. */
  lemma RestartIsInStep(lookup: Lookup, dict: seq<DictRow>, cat: Catalog)
    requires Agrees(lookup, dict, cat)
    ensures InStep(Load(dict), dict, cat)
  {
    LoadIsInjective(dict);
    hide Rising, Settled, Covered, Persisted, Injective, Holds, Load;
    forall row | row in dict ensures Covered(Load(dict), dict, cat, row) {
      LoadCovers(dict, cat, row);
    }
    forall r | Holds(Load(dict), r) ensures Persisted(Load(dict), dict, cat, r) {
      LoadIsPersisted(dict, cat, r);
    }
  }

  /** The text survives a restart under its id: the table gives it back whole, and no other persisted text of the
      column with a greater id is given back as it. */
  ghost predicate Survives(lookup: Lookup, dict: seq<DictRow>, cat: Catalog, r: DictRow) {
    && cat.Kept(r.value) == r.value
    && forall x :: Persisted(lookup, dict, cat, x) && x.column == r.column && cat.Kept(x.value) == r.value ==>
         x.id <= r.id
  }

  /** The row that covers another, as an entry. */
  lemma CoveringEntry(lookup: Lookup, dict: seq<DictRow>, cat: Catalog, row: DictRow) returns (x: DictRow)
    requires Agrees(lookup, dict, cat) && row in dict
    ensures Persisted(lookup, dict, cat, x) && x.column == row.column && cat.Kept(x.value) == row.value
    ensures row.id <= x.id
  {
    hide Persisted, Catalog.Kept, Rising, Settled, Injective;
    x :| Persisted(lookup, dict, cat, x) && x.column == row.column && cat.Kept(x.value) == row.value && row.id <= x.id;
  }

  lemma SurvivingRowIsLast(lookup: Lookup, dict: seq<DictRow>, cat: Catalog, r: DictRow)
    requires Agrees(lookup, dict, cat) && Survives(lookup, dict, cat, r) && r in dict
    ensures LastRow(dict, r)
  {
    hide Agrees, Persisted, Catalog.Kept;
    forall q | q in dict && q.column == r.column && q.value == r.value ensures q.id <= r.id {
      var x := CoveringEntry(lookup, dict, cat, q);
    }
  }

  lemma LastRowSurvives(lookup: Lookup, dict: seq<DictRow>, cat: Catalog, r: DictRow)
    requires Rising(dict) && LastRow(dict, r) && DictRow(r.column, cat.Kept(r.value), r.id) in dict
    ensures Survives(lookup, dict, cat, r)
  {
    OneRowPerId(dict, r, DictRow(r.column, cat.Kept(r.value), r.id));
    hide Rising, Holds, Catalog.Kept;
  }

  /** A persisted entry is in memory after a restart exactly when its text survives. */
  lemma TextIsReloadedExactlyWhen(lookup: Lookup, dict: seq<DictRow>, cat: Catalog, r: DictRow)
    requires Agrees(lookup, dict, cat) && DictRow(r.column, cat.Kept(r.value), r.id) in dict
    ensures Holds(Load(dict), r) <==> Survives(lookup, dict, cat, r)
  {
    assert Rising(dict);
    LoadHoldsLastRows(dict, r);
    hide Load, Holds, Rising, Agrees, Catalog.Kept, LastRow;
    if LastRow(dict, r) {
      LastRowSurvives(lookup, dict, cat, r);
    }
    if Survives(lookup, dict, cat, r) {
      assert cat.Kept(r.value) == r.value;
      hide Survives;
      SurvivingRowIsLast(lookup, dict, cat, r);
    }
  }

  lemma ReloadedTextIsWhole(lookup: Lookup, dict: seq<DictRow>, cat: Catalog, r: DictRow)
    requires Agrees(lookup, dict, cat) && Persisted(lookup, dict, cat, r) && Holds(Load(dict), r)
    ensures cat.Kept(r.value) == r.value
  {
    TextIsReloadedExactlyWhen(lookup, dict, cat, r);
    hide Agrees, Holds, Load, Catalog.Kept;
  }

  /** A restart rebuilds exactly the numbering that was persisted if and only if the table gives every persisted
      text back whole: it holds no NUL, and the column's affinity leaves it alone. */
  lemma RestartRebuildsNumberingExactlyWhen(lookup: Lookup, dict: seq<DictRow>, cat: Catalog)
    requires Agrees(lookup, dict, cat)
    ensures (forall r :: Holds(Load(dict), r) <==> Persisted(lookup, dict, cat, r))
       <==> (forall r :: Persisted(lookup, dict, cat, r) ==> cat.Kept(r.value) == r.value)
  {
    hide Load, Holds, Agrees, Persisted, Catalog.Kept;
    forall r | Persisted(lookup, dict, cat, r) && Holds(Load(dict), r) ensures cat.Kept(r.value) == r.value {
      ReloadedTextIsWhole(lookup, dict, cat, r);
    }
    if forall r :: Persisted(lookup, dict, cat, r) ==> cat.Kept(r.value) == r.value {
      forall r ensures Holds(Load(dict), r) <==> Persisted(lookup, dict, cat, r) {
        WholeTextIsReloaded(lookup, dict, cat, r);
      }
    }
  }

  lemma WholeTextIsReloaded(lookup: Lookup, dict: seq<DictRow>, cat: Catalog, r: DictRow)
    requires Agrees(lookup, dict, cat) && forall x :: Persisted(lookup, dict, cat, x) ==> cat.Kept(x.value) == x.value
    ensures Holds(Load(dict), r) <==> Persisted(lookup, dict, cat, r)
  {
    if Persisted(lookup, dict, cat, r) {
      OneEntryPerText(lookup, r);
      TextIsReloadedExactlyWhen(lookup, dict, cat, r);
    }
    if Holds(Load(dict), r) {
      LoadIsPersisted(dict, cat, r);
      LoadHoldsLastRows(dict, r);
      hide Load, Rising, Settled, Injective, Catalog.Kept, Covered, Agrees;
      var x := CoveringEntry(lookup, dict, cat, r);
      assert x == r;
    }
  }

  lemma OneEntryPerText(lookup: Lookup, r: DictRow)
    requires Holds(lookup, r)
    ensures forall x :: Holds(lookup, x) && x.column == r.column && x.value == r.value ==> x == r
  {
  }

  // ── The class ──────────────────────────────────────────────────────────────

  /** Whether a dictionary text satisfies a filter on its column. */
  predicate TextMatches(op: string, wanted: string, text: string) {
    if op == "~=" then Contains(text, wanted) || Contains(wanted, text)
    else Compare(op, Text(text), Text(wanted))
  }

  function Candidates(lookup: Lookup, column: string, op: string, wanted: string): set<int> {
    var known := Known(lookup, column);
    set v | v in known && TextMatches(op, wanted, v) :: known[v]
  }

  class ColumnDictionary {
    var lookup: Lookup

    constructor (lookup: Lookup)
      ensures this.lookup == lookup
    {
      this.lookup := lookup;
    }

    /** dict, kept and budget stand for the persist callback: the dictionary table, what it gives back for the text,
        and how many inserts it accepts. */
    method GetOrCreate(column: string, value: string, kept: string, dict: seq<DictRow>, budget: nat)
      returns (id: Option<int>, dict': seq<DictRow>, budget': nat)
      modifies this
      ensures var a := Assign(Tx(old(lookup), dict, budget), column, value, kept);
              Tx(lookup, dict', budget') == a.tx && id == a.id
    {
      dict', budget' := dict, budget;
      ghost var before := lookup;
      if column !in lookup {
        lookup := lookup[column := map[]];
      }
      var known := lookup[column];
      assert known == Known(before, column);
      if value in known {
        return Some(known[value]), dict, budget;
      }
      var newId := 1;
      if known != map[] {
        var top := Greatest(known);
        newId := top + 1;
      }
      if budget == 0 {
        return None, dict, budget;
      }
      dict', budget' := dict + [DictRow(column, kept, newId)], budget - 1;
      lookup := lookup[column := known[value := newId]];
      assert lookup == before[column := known[value := newId]];
      id := Some(newId);
    }

    method GetValue(column: string, id: int) returns (r: Result<string>)
      ensures r.Ok? ==> Holds(lookup, DictRow(column, r.value, id))
      ensures r.Error? ==> forall v :: !Holds(lookup, DictRow(column, v, id))
    {
      if column !in lookup {
        return Error("Unknown compressed column");
      }
      var left := lookup[column].Keys;
      while left != {}
        invariant left <= lookup[column].Keys
        invariant forall v :: v in lookup[column] && lookup[column][v] == id ==> v in left
      {
        var v :| v in left;
        if lookup[column][v] == id {
          return Ok(v);
        }
        left := left - {v};
      }
      return Error("No value for id");
    }

    method QueryCandidates(column: string, op: string, wanted: string) returns (ids: seq<int>)
      ensures forall i :: i in ids <==> i in Candidates(lookup, column, op, wanted)
    {
      ids := [];
      if column !in lookup {
        return;
      }
      var known := lookup[column];
      var left := known.Keys;
      while left != {}
        invariant left <= known.Keys
        invariant forall i :: i in ids <==>
          exists v :: v in known.Keys - left && TextMatches(op, wanted, v) && known[v] == i
      {
        var v :| v in left;
        ghost var before, seen := ids, known.Keys - left;
        left := left - {v};
        assert known.Keys - left == seen + {v};
        if TextMatches(op, wanted, v) {
          ids := ids + [known[v]];
          forall i ensures i in ids <==> exists w :: w in seen + {v} && TextMatches(op, wanted, w) && known[w] == i {
            assert i in ids <==> i in before || i == known[v];
          }
        }
      }
    }
  }

  /** The greatest value of a non-empty map. */
  method Greatest(known: map<string, int>) returns (top: int)
    requires known != map[]
    ensures top + 1 == NextValueId(known)
  {
    var v :| v in known;
    top := known[v];
    var left := known.Keys - {v};
    while left != {}
      invariant left <= known.Keys
      invariant top in known.Values
      invariant forall w :: w in known && w !in left ==> known[w] <= top
    {
      var w :| w in left;
      if known[w] > top {
        top := known[w];
      }
      left := left - {w};
    }
    assert forall y :: y in known.Values ==> y <= top;
  }
}
