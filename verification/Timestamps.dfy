/** The least timestamp of a table, as SQLite's MIN finds it and the program reads it. */
module Timestamps {
  import opened IdSets
  import opened LogTable

  lemma {:induction false} TextTotal(a: string, b: string)
    requires !TextLess(a, b) && !TextLess(b, a)
    ensures a == b
  {
    if a != "" && b != "" {
      TextTotal(a[1..], b[1..]);
      assert a == [a[0]] + a[1..] && b == [b[0]] + b[1..];
    }
  }

  lemma {:induction false} TextAsymmetric(a: string, b: string)
    requires TextLess(a, b)
    ensures !TextLess(b, a)
  {
    if a != "" && a[0] == b[0] {
      TextAsymmetric(a[1..], b[1..]);
    }
  }

  lemma CellAsymmetric(a: Cell, b: Cell)
    requires CellLess(a, b)
    ensures !CellLess(b, a)
  {
    if a.Text? && b.Text? {
      TextAsymmetric(a.s, b.s);
    }
  }

  /** A row with a timestamp that no row's timestamp is below. */
  predicate Earliest(ids: set<int>, rows: map<int, Row>, timestamp: string, id: int) {
    && id in ids && id in rows && CellOf(id, rows[id], timestamp) != Null
    && (forall y :: y in ids && y in rows && CellOf(y, rows[y], timestamp) != Null ==>
          !CellLess(CellOf(y, rows[y], timestamp), CellOf(id, rows[id], timestamp)))
  }

  predicate NoTimestamps(ids: set<int>, rows: map<int, Row>, timestamp: string) {
    forall id :: id in ids && id in rows ==> CellOf(id, rows[id], timestamp) == Null
  }

  lemma {:induction false} EarliestExists(ids: set<int>, rows: map<int, Row>, timestamp: string)
    ensures NoTimestamps(ids, rows, timestamp) || exists id :: Earliest(ids, rows, timestamp, id)
  {
    if ids != {} {
      var x := Pick(ids);
      EarliestExists(ids - {x}, rows, timestamp);
      EarliestWithOneMore(ids - {x}, ids, rows, timestamp, x);
    }
  }

  lemma EarliestWithOneMore(ids: set<int>, more: set<int>, rows: map<int, Row>, timestamp: string, x: int)
    requires forall y :: y in more <==> y in ids || y == x
    requires NoTimestamps(ids, rows, timestamp) || exists id :: Earliest(ids, rows, timestamp, id)
    ensures NoTimestamps(more, rows, timestamp) || exists id :: Earliest(more, rows, timestamp, id)
  {
    if x !in rows || CellOf(x, rows[x], timestamp) == Null {
      if id :| Earliest(ids, rows, timestamp, id) {
        assert Earliest(more, rows, timestamp, id);
      }
    } else if NoTimestamps(ids, rows, timestamp) {
      assert Earliest(more, rows, timestamp, x) by { NotBelowItself(CellOf(x, rows[x], timestamp)); }
    } else {
      var id :| Earliest(ids, rows, timestamp, id);
      var cell, least := CellOf(x, rows[x], timestamp), CellOf(id, rows[id], timestamp);
      if CellLess(cell, least) {
        forall y | y in more && y in rows && CellOf(y, rows[y], timestamp) != Null
          ensures !CellLess(CellOf(y, rows[y], timestamp), cell)
        {
          if CellLess(CellOf(y, rows[y], timestamp), cell) {
            CellAsymmetric(CellOf(y, rows[y], timestamp), cell);
            CellOrder(CellOf(y, rows[y], timestamp), cell, least);
            CellAsymmetric(cell, least);
          }
        }
        assert Earliest(more, rows, timestamp, x);
      } else {
        assert Earliest(more, rows, timestamp, id);
      }
    }
  }

  lemma NotBelowItself(a: Cell)
    ensures !CellLess(a, a)
  {
    if CellLess(a, a) {
      CellAsymmetric(a, a);
    }
  }

  /** The text of the least timestamp; empty if there is none. */
  ghost function MinTimestamp(rows: map<int, Row>, timestamp: string): string {
    EarliestExists(rows.Keys, rows, timestamp);
    if NoTimestamps(rows.Keys, rows, timestamp) then ""
    else
      var id :| Earliest(rows.Keys, rows, timestamp, id);
      CellText(CellOf(id, rows[id], timestamp))
  }

  lemma EarliestHasMinTimestamp(rows: map<int, Row>, timestamp: string, id: int)
    requires Earliest(rows.Keys, rows, timestamp, id)
    ensures CellText(CellOf(id, rows[id], timestamp)) == MinTimestamp(rows, timestamp)
  {
    EarliestExists(rows.Keys, rows, timestamp);
    forall x | Earliest(rows.Keys, rows, timestamp, x)
      ensures CellOf(x, rows[x], timestamp) == CellOf(id, rows[id], timestamp)
    {
      var a, b := CellOf(x, rows[x], timestamp), CellOf(id, rows[id], timestamp);
      if a.Text? && b.Text? {
        TextTotal(a.s, b.s);
      }
    }
  }

  /** The query for MIN(timestamp), and the text made of its one value. */
  method GetMinTimestamp(rows: map<int, Row>, timestamp: string) returns (least: string)
    ensures least == MinTimestamp(rows, timestamp)
  {
    if NoTimestamps(rows.Keys, rows, timestamp) {
      return "";
    }
    var id :| id in rows.Keys
          && Earliest(rows.Keys, rows, timestamp, id) by { EarliestExists(rows.Keys, rows, timestamp); }
    EarliestHasMinTimestamp(rows, timestamp, id);
    least := CellText(CellOf(id, rows[id], timestamp));
  }

  // ── Text timestamps ────────────────────────────────────────────────────────

  predicate TextTimestamps(rows: map<int, Row>, timestamp: string) {
    forall id :: id in rows ==> CellOf(id, rows[id], timestamp) == Null || CellOf(id, rows[id], timestamp).Text?
  }

  /** With text timestamps none is below the least, and a non-empty least is one of them. */
  lemma MinTimestampIsLeast(rows: map<int, Row>, timestamp: string)
    requires TextTimestamps(rows, timestamp)
    ensures var least := MinTimestamp(rows, timestamp);
            && (forall id :: id in rows ==> !CellLess(CellOf(id, rows[id], timestamp), Text(least)))
            && (least != "" ==> exists id :: id in rows && CellOf(id, rows[id], timestamp) == Text(least))
  {
    EarliestExists(rows.Keys, rows, timestamp);
    if NoTimestamps(rows.Keys, rows, timestamp) {
      assert forall id :: id in rows ==> id in rows.Keys;
    } else {
      var id :| Earliest(rows.Keys, rows, timestamp, id);
      EarliestHasMinTimestamp(rows, timestamp, id);
      assert forall y :: y in rows ==> y in rows.Keys;
    }
  }

  lemma DumpIntIsSome(n: int)
    ensures DumpInt(n) != ""
  {
  }

  /** With an integer among them the least is the least integer, as a text. */
  lemma MinIntegerIsLeast(rows: map<int, Row>, timestamp: string) returns (id: int)
    requires !TextTimestamps(rows, timestamp)
    ensures id in rows && CellOf(id, rows[id], timestamp).Int?
    ensures MinTimestamp(rows, timestamp) == DumpInt(CellOf(id, rows[id], timestamp).n)
    ensures forall y :: y in rows && CellOf(y, rows[y], timestamp).Int? ==>
              CellOf(id, rows[id], timestamp).n <= CellOf(y, rows[y], timestamp).n
  {
    EarliestExists(rows.Keys, rows, timestamp);
    var x :| x in rows && CellOf(x, rows[x], timestamp).Int?;
    assert x in rows.Keys;
    id :| Earliest(rows.Keys, rows, timestamp, id);
    EarliestHasMinTimestamp(rows, timestamp, id);
    hide MinTimestamp;
    assert forall y :: y in rows ==> y in rows.Keys;
  }
}
