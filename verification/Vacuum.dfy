/**
 Retention: age and size based deletion with a per-pass budget, the incremental page pass, and the vacuum
 task's pass built from them. Sizes in MB are exact rationals here, so they are compared and scaled in bytes.
 */
module Vacuum {
  import opened Results
  import opened IdSets
  import opened LogTable
  import opened Dictionary
  import opened Queries
  import opened FastCount
  import opened Timestamps

  const MB: nat := 1048576

  /** The log rows, and the pages of the file: in use and on the freelist. */
  datatype Store = Store(rows: map<int, Row>, usedPages: nat, freePages: nat)

  datatype Mode = NoVacuum | FullVacuum | IncrementalVacuum

  datatype Settings = Settings(catalog: Catalog, pageSize: nat, mode: Mode, passMb: nat, maxBytes: nat,
        targetBytes: nat)

  /** Page sizes are at least 1 byte and the pass budget at least 1 MB. */
  predicate SettingsOk(c: Settings) {
    c.pageSize >= 1 && c.passMb >= 1 && ID !in c.catalog.compressed && c.catalog.timestamp !in c.catalog.compressed
    && c.catalog.timestamp != ID && c.catalog.HasColumn(ID)
  }

  function SizeBytes(s: Store, pageSize: nat): nat { s.usedPages * pageSize }

  ghost function AvgRowBytes(s: Store, pageSize: nat): nat {
    var rowcnt := EstimateRowCount(s.rows);
    var avg := SizeBytes(s, pageSize) / (if rowcnt < 1 then 1 else rowcnt);
    if avg == 0 then 1 else avg
  }

  /** Division truncating toward zero. */
  function Trunc(n: int, d: nat): int
    requires d >= 1
  {
    if n >= 0 then n / d else -((-n) / d)
  }

  /** The part of the rows by which the size is over target. */
  function ShareOver(rowcnt: int, db: nat, target: nat): int
    requires db >= 1
  {
    Trunc(rowcnt * (db - target), db)
  }

  function MinInt(a: int, b: int): int { if a <= b then a else b }

  /** The greatest id the byte budget lets a deletion reach. */
  ghost function BudgetId(s: Store, limitMb: nat, pageSize: nat): int {
    MinLogId(s.rows) + limitMb * MB / AvgRowBytes(s, pageSize) - 1
  }

  /** The greatest id a size-triggered deletion removes. */
  ghost function ExcessId(s: Store, target: nat, limitMb: nat, pageSize: nat): int
    requires SizeBytes(s, pageSize) >= 1
  {
    var db := SizeBytes(s, pageSize);
    var rowcnt := MaxLogId(s.rows) - MinLogId(s.rows) + 1;
    var byRatio := MinLogId(s.rows) + ShareOver(rowcnt, db, target) - 1;
    if limitMb > 0 then MinInt(byRatio, BudgetId(s, limitMb, pageSize)) else byRatio
  }

  function UpToId(rows: map<int, Row>, r: int): set<int> {
    set id | id in rows && id <= r
  }

  function Stale(rows: map<int, Row>, timestamp: string, cutoff: string): set<int> {
    set id | id in rows && Aged(rows, timestamp, Text(cutoff), id)
  }

  /** Deleting rows frees some pages; deleting none frees none. */
  function AfterDelete(s: Store, doomed: set<int>, freed: nat): Store {
    if forall id :: id in s.rows ==> id !in doomed then s
    else
      var f := if freed < s.usedPages then freed else s.usedPages;
      Store(s.rows - doomed, s.usedPages - f, s.freePages + f)
  }

  predicate StaleWanted(least: string, cutoff: string) {
    least != "" && TextLess(least, cutoff)
  }

  /** The stale rows one call may remove: with a budget only those up to the id it reaches. */
  ghost function StaleWithinBudget(s: Store, cutoff: string, limitMb: nat, c: Settings): set<int> {
    var stale := Stale(s.rows, c.catalog.timestamp, cutoff);
    if limitMb == 0 then stale
    else stale * UpToId(s.rows, MinInt(MaxLogId(s.rows), BudgetId(s, limitMb, c.pageSize)))
  }

  ghost function StaleDoomed(s: Store, cutoff: string, limitMb: nat, c: Settings): set<int> {
    if StaleWanted(MinTimestamp(s.rows, c.catalog.timestamp), cutoff) then StaleWithinBudget(s, cutoff, limitMb,
          c) else {}
  }

  ghost function ExcessDoomed(s: Store, limitMb: nat, c: Settings): set<int> {
    if SizeBytes(s, c.pageSize) <= c.maxBytes then {}
    else UpToId(s.rows, ExcessId(s, c.targetBytes, limitMb, c.pageSize))
  }

  /** PRAGMA incremental_vacuum(n): n below 1 clears the whole freelist. */
  function PagesVacuumed(s: Store, n: int): Store {
    if n < 1 || n >= s.freePages then s.(freePages := 0) else s.(freePages := s.freePages - n)
  }

  function IncrementalPass(s: Store, c: Settings): Store
    requires c.pageSize >= 1
  {
    if s.freePages == 0 then s
    else PagesVacuumed(s, MinInt(c.passMb * MB / c.pageSize, s.freePages))
  }

  /** What one pass meets: the clock's cutoff and the pages each delete frees. */
  datatype Input = Input(cutoff: string, freedByAge: nat, freedBySize: nat)

  ghost function Pass(s: Store, i: Input, c: Settings): Store
    requires c.pageSize >= 1
  {
    var limit := if c.mode == IncrementalVacuum then c.passMb else 0;
    var s1 := if c.mode == IncrementalVacuum then IncrementalPass(s, c) else s;
    if c.mode == IncrementalVacuum && s1.freePages > 0 then s1
    else
      var s2 := if c.catalog.HasColumn(c.catalog.timestamp)
                then AfterDelete(s1, StaleDoomed(s1, i.cutoff, limit, c), i.freedByAge) else s1;
      var s3 := AfterDelete(s2, ExcessDoomed(s2, limit, c), i.freedBySize);
      if c.mode == FullVacuum then s3.(freePages := 0) else s3
  }

  // ── Bounds ─────────────────────────────────────────────────────────────────

  lemma MulDivFloor(a: nat, b: nat)
    requires b >= 1
    ensures (a / b) * b <= a < (a / b + 1) * b
  {
  }

  lemma MinIsLeast(rows: map<int, Row>, id: int)
    requires id in rows
    ensures MinLogId(rows) <= id <= MaxLogId(rows)
  {
    assert id in rows.Keys;
  }

  /** Ids up to min + k - 1 are at most k, however sparse. */
  lemma PrefixSize(rows: map<int, Row>, r: int, k: nat)
    requires r <= MinLogId(rows) + k - 1
    ensures |UpToId(rows, r)| <= k
  {
    var gone := UpToId(rows, r);
    forall id | id in gone ensures MinLogId(rows) <= id < MinLogId(rows) + k {
      MinIsLeast(rows, id);
    }
    SizeWithin(gone, MinLogId(rows), MinLogId(rows) + k);
  }

  lemma ShareOverBounds(rowcnt: nat, db: nat, target: nat)
    requires db >= 1
    ensures target <= db ==> ShareOver(rowcnt, db, target) == rowcnt * (db - target) / db
    ensures target <= db ==> 0 <= ShareOver(rowcnt, db, target)
    ensures target > db ==> ShareOver(rowcnt, db, target) <= 0
  {
    if target <= db {
      TruncOf(rowcnt, db - target, db);
    } else {
      TruncOf(rowcnt, target - db, db);
      MulNegated(rowcnt, target - db);
    }
  }

  lemma TruncOf(a: nat, b: nat, d: nat)
    requires d >= 1
    ensures a * b >= 0 && Trunc(a * b, d) == (a * b) / d >= 0
    ensures Trunc(-(a * b), d) <= 0
  {
  }

  lemma MulNegated(a: int, b: int)
    ensures a * -b == -(a * b)
  {
  }

  /** How many ids lie from the least to the greatest. */
  ghost function Span(rows: map<int, Row>): nat
    requires rows.Keys != {}
  {
    MinIsLeast(rows, MinLogId(rows));
    MaxLogId(rows) - MinLogId(rows) + 1
  }

  /** That many rows of the size spread evenly over the span weigh no more than the budget. */
  ghost predicate WithinBudget(s: Store, n: nat, limitMb: nat, pageSize: nat) {
    n <= limitMb * MB && (s.rows.Keys != {} ==> n * (SizeBytes(s, pageSize) / Span(s.rows)) <= limitMb * MB)
  }

  /** Rows up to a budget id do. */
  lemma BudgetIsKept(s: Store, limitMb: nat, pageSize: nat, r: int, doomed: set<int>)
    requires r <= BudgetId(s, limitMb, pageSize) && doomed <= UpToId(s.rows, r)
    ensures WithinBudget(s, |doomed|, limitMb, pageSize)
  {
    var avg, budget := AvgRowBytes(s, pageSize), limitMb * MB;
    PrefixSize(s.rows, r, budget / avg);
    SubsetSize(doomed, UpToId(s.rows, r));
    MulDivFloor(budget, avg);
    MulMonotone(|doomed|, budget / avg, avg);
    AverageIsOverSpan(s, pageSize);
    MulAtLeast(|doomed|, 1, avg);
    if s.rows.Keys != {} {
      MulAtLeast(|doomed|, SizeBytes(s, pageSize) / Span(s.rows), avg);
    }
  }

  lemma MulAtLeast(n: nat, a: nat, b: nat)
    requires a <= b
    ensures n * a <= n * b
  {
  }

  /** The average row is the size over the span of ids, and at least 1. */
  lemma AverageIsOverSpan(s: Store, pageSize: nat)
    ensures AvgRowBytes(s, pageSize) >= 1
    ensures s.rows.Keys != {} ==>
              var even := SizeBytes(s, pageSize) / Span(s.rows);
              AvgRowBytes(s, pageSize) == if even < 1 then 1 else even
  {
  }

  /** Size trimming removes exactly an id prefix, of no more rows than the share of the id span that is over
      target, and with a budget of no more bytes than the budget if the size is spread evenly over the id span, however
      sparse the ids. */
  lemma ExcessRemovalIsBounded(s: Store, limitMb: nat, c: Settings)
    requires SizeBytes(s, c.pageSize) > c.maxBytes
    ensures var doomed := ExcessDoomed(s, limitMb, c); var db := SizeBytes(s, c.pageSize);
            && (forall a, b :: a in s.rows && b in doomed && a <= b ==> a in doomed)
            && (c.targetBytes <= db ==>
                  |doomed| <= (MaxLogId(s.rows) - MinLogId(s.rows) + 1) * (db - c.targetBytes) / db)
            && (c.targetBytes > db ==> |doomed| == 0)
            && (limitMb > 0 ==> WithinBudget(s, |doomed|, limitMb, c.pageSize))
  {
    var db := SizeBytes(s, c.pageSize);
    var span := MaxLogId(s.rows) - MinLogId(s.rows) + 1;
    var r := ExcessId(s, c.targetBytes, limitMb, c.pageSize);
    SpanIsPositive(s.rows);
    ShareOverBounds(span, db, c.targetBytes);
    var share := ShareOver(span, db, c.targetBytes);
    PrefixSize(s.rows, r, if share >= 0 then share else 0);
    if limitMb > 0 {
      BudgetIsKept(s, limitMb, c.pageSize, r, UpToId(s.rows, r));
    }
    hide BudgetId, WithinBudget, ShareOver, SizeBytes, MaxLogId, MinLogId;
  }

  lemma SpanIsPositive(rows: map<int, Row>)
    ensures MaxLogId(rows) - MinLogId(rows) + 1 >= 1
  {
    if rows.Keys != {} {
      assert MaxOf(rows.Keys) in rows.Keys;
    }
  }

  lemma MulMonotone(a: nat, b: nat, k: nat)
    requires a <= b
    ensures a * k <= b * k
  {
  }

  /** A size-triggered deletion removes at least the oldest row whenever both bounds allow one. */
  lemma ExcessRemovesOldest(s: Store, limitMb: nat, c: Settings)
    requires SizeBytes(s, c.pageSize) > c.maxBytes && s.rows.Keys != {}
    requires var db := SizeBytes(s, c.pageSize);
             ShareOver(MaxLogId(s.rows) - MinLogId(s.rows) + 1, db, c.targetBytes) >= 1
    requires limitMb > 0 ==> SizeBytes(s, c.pageSize) / Span(s.rows) <= limitMb * MB
    ensures MinLogId(s.rows) in ExcessDoomed(s, limitMb, c) && MinLogId(s.rows) in s.rows
  {
    assert MinLogId(s.rows) in s.rows.Keys;
    if limitMb > 0 {
      AverageIsOverSpan(s, c.pageSize);
      DivPositive(limitMb * MB, AvgRowBytes(s, c.pageSize));
    }
    hide AvgRowBytes, ShareOver, MinLogId, MaxLogId;
  }

  /** Age-based deletion takes only rows at or past the cutoff, and with a budget no more bytes of them than the budget
      if the size is spread evenly over the id span. */
  lemma StaleRemovalIsBounded(s: Store, cutoff: string, limitMb: nat, c: Settings)
    ensures var doomed := StaleDoomed(s, cutoff, limitMb, c);
            && (forall id :: id in doomed ==>
                  id in s.rows && Compare("<=", CellOf(id, s.rows[id], c.catalog.timestamp), Text(cutoff)))
            && (limitMb > 0 ==> WithinBudget(s, |doomed|, limitMb, c.pageSize))
  {
    var doomed := StaleDoomed(s, cutoff, limitMb, c);
    if limitMb > 0 && doomed != {} {
      var r := MinInt(MaxLogId(s.rows), BudgetId(s, limitMb, c.pageSize));
      BudgetIsKept(s, limitMb, c.pageSize, r, doomed);
    }
  }

  /** It takes all the stale rows it may if and only if there are none to take or the guard sees that there are: where
      all timestamps are texts, if the least is neither empty nor exactly the cutoff; where some are integers, which are
      stale for every cutoff, if the least of them is below the cutoff as a text. */
  lemma StaleRemovalExactlyWhen(s: Store, cutoff: string, limitMb: nat, c: Settings)
    ensures var least := MinTimestamp(s.rows, c.catalog.timestamp);
            StaleDoomed(s, cutoff, limitMb, c) == StaleWithinBudget(s, cutoff, limitMb, c) <==>
              || StaleWithinBudget(s, cutoff, limitMb, c) == {}
              || (if TextTimestamps(s.rows, c.catalog.timestamp) then least !in ["", cutoff]
                  else TextLess(least, cutoff))
    ensures !TextTimestamps(s.rows, c.catalog.timestamp) ==> Stale(s.rows, c.catalog.timestamp, cutoff) != {}
  {
    var ts := c.catalog.timestamp;
    var least := MinTimestamp(s.rows, ts);
    if TextTimestamps(s.rows, ts) {
      MinTimestampIsLeast(s.rows, ts);
      hide MinTimestamp, BudgetId, UpToId;
      if TextLess(least, cutoff) {
        TextAsymmetric(least, cutoff);
      } else if least != cutoff {
        NoneAtCutoff(s.rows, ts, cutoff, least);
        Subset(StaleWithinBudget(s, cutoff, limitMb, c), {});
      }
    } else {
      var id := MinIntegerIsLeast(s.rows, ts);
      DumpIntIsSome(CellOf(id, s.rows[id], ts).n);
      assert Aged(s.rows, ts, Text(cutoff), id);
      hide MinTimestamp, BudgetId, UpToId;
      assert id in Stale(s.rows, ts, cutoff);
    }
  }

  lemma NoneAtCutoff(rows: map<int, Row>, ts: string, cutoff: string, least: string)
    requires forall id :: id in rows ==> !CellLess(CellOf(id, rows[id], ts), Text(least))
    requires !TextLess(least, cutoff) && least != cutoff
    ensures forall id :: id !in Stale(rows, ts, cutoff)
  {
    if !TextLess(cutoff, least) {
      TextTotal(least, cutoff);
    }
    forall id | id in Stale(rows, ts, cutoff) ensures false {
      CellOrder(Text(cutoff), Text(least), CellOf(id, rows[id], ts));
    }
  }

  const AGED := Settings(Catalog([Column("id", true, true), Column("ts", true, false)], {}, "ts", true, Unchanged),
        4096, NoVacuum, 1, 0, 0)

  /** Three tables with a row at or past the cutoff of which age-based deletion removes nothing. */
  lemma StaleRowsCanStay()
    ensures var empty := Store(map[1 := map["ts" := Text("")], 2 := map["ts" := Text("1")]], 1, 0);
            2 in Stale(empty.rows, "ts", "2") && StaleDoomed(empty, "2", 0, AGED) == {}
    ensures var atCutoff := Store(map[1 := map["ts" := Text("2")]], 1, 0);
            1 in Stale(atCutoff.rows, "ts", "2") && StaleDoomed(atCutoff, "2", 0, AGED) == {}
    ensures var integer := Store(map[1 := map["ts" := Int(5)]], 1, 0);
            1 in Stale(integer.rows, "ts", "2024-01-01") && StaleDoomed(integer, "2024-01-01", 0, AGED) == {}
  {
    EmptyTimestampStays();
    TimestampAtCutoffStays();
    IntegerTimestampStays();
    hide StaleDoomed, Stale;
  }

  lemma EmptyTimestampStays()
    ensures var s := Store(map[1 := map["ts" := Text("")], 2 := map["ts" := Text("1")]], 1, 0);
            2 in Stale(s.rows, "ts", "2") && StaleDoomed(s, "2", 0, AGED) == {}
  {
    var rows: map<int, Row> := map[1 := map["ts" := Text("")], 2 := map["ts" := Text("1")]];
    assert 1 in rows.Keys && Earliest(rows.Keys, rows, "ts", 1);
    EarliestHasMinTimestamp(rows, "ts", 1);
  }

  lemma TimestampAtCutoffStays()
    ensures var s := Store(map[1 := map["ts" := Text("2")]], 1, 0);
            1 in Stale(s.rows, "ts", "2") && StaleDoomed(s, "2", 0, AGED) == {}
  {
    var rows: map<int, Row> := map[1 := map["ts" := Text("2")]];
    assert 1 in rows.Keys && Earliest(rows.Keys, rows, "ts", 1);
    EarliestHasMinTimestamp(rows, "ts", 1);
  }

  lemma IntegerTimestampStays()
    ensures var s := Store(map[1 := map["ts" := Int(5)]], 1, 0);
            1 in Stale(s.rows, "ts", "2024-01-01") && StaleDoomed(s, "2024-01-01", 0, AGED) == {}
  {
    var rows: map<int, Row> := map[1 := map["ts" := Int(5)]];
    assert 1 in rows.Keys && Earliest(rows.Keys, rows, "ts", 1);
    EarliestHasMinTimestamp(rows, "ts", 1);
    assert DumpInt(5) == "5" && !TextLess("5", "2024-01-01");
  }

  /** Both kinds of deletion remove the rows up to some id, the age-based one provided every row has a timestamp
      and timestamps never decrease with the id, whether or not a budget cuts it short. */
  lemma VacuumCutsPrefixes(s: Store, cutoff: string, limitMb: nat, c: Settings)
    ensures CutsPrefix(s.rows, ExcessDoomed(s, limitMb, c))
    ensures TimestampsFollow(s.rows, c.catalog.timestamp) ==> CutsPrefix(s.rows, StaleDoomed(s, cutoff, limitMb, c))
  {
    hide CutsPrefix, ExcessId, BudgetId, MinTimestamp, MaxLogId, TimestampsFollow, Aged;
    OldestCutIsPrefix(s.rows, ExcessDoomed(s, limitMb, c));
    if TimestampsFollow(s.rows, c.catalog.timestamp) {
      var doomed := StaleDoomed(s, cutoff, limitMb, c);
      forall a, b | a in s.rows && b in s.rows && a < b && b in doomed ensures a in doomed {
        OlderIsAgedToo(s.rows, c.catalog.timestamp, Text(cutoff), a, b);
      }
      OldestCutIsPrefix(s.rows, doomed);
    }
  }

  // ── Accuracy ───────────────────────────────────────────────────────────────

  lemma ScaledDiv(n: nat, x: nat, w: nat)
    requires n >= 1 && w >= 1
    ensures n * w >= 1 && (n * x) / (n * w) == x / w
  {
    var q := x / w;
    var r := x % w;
    assert x == q * w + r;
    assert n * x == q * (n * w) + n * r;
    assert n * r < n * w by { MulStrict(n, r, w); }
    DivUnique(n * x, n * w, q, n * r);
  }

  lemma MulStrict(n: nat, a: nat, b: nat)
    requires n >= 1 && a < b
    ensures n * a < n * b
  {
  }

  lemma DivUnique(a: nat, d: nat, q: nat, r: nat)
    requires d >= 1 && a == q * d + r && r < d
    ensures a / d == q
  {
    var q' := a / d;
    assert q' * d <= a < (q' + 1) * d;
    if q' < q {
      MulMonotone(q' + 1, q, d);
    } else if q < q' {
      MulMonotone(q + 1, q', d);
    }
  }

  /** Contiguous rows of w bytes each that make up the size. */
  ghost predicate EvenRows(s: Store, pageSize: nat, w: nat) {
    w >= 1 && |s.rows| >= 1 && EstimateRowCount(s.rows) == |s.rows| && SizeBytes(s, pageSize) == |s.rows| * w
  }

  lemma ShareOfEvenRows(s: Store, pageSize: nat, target: nat, w: nat)
    requires EvenRows(s, pageSize, w) && target <= SizeBytes(s, pageSize)
    ensures var over := (SizeBytes(s, pageSize) - target) / w;
            && ShareOver(MaxLogId(s.rows) - MinLogId(s.rows) + 1, SizeBytes(s, pageSize), target) == over
            && 0 <= over <= |s.rows|
  {
    var n, db := |s.rows|, SizeBytes(s, pageSize);
    assert |s.rows.Keys| == n && s.rows.Keys != {};
    assert MaxLogId(s.rows) - MinLogId(s.rows) + 1 == n;
    hide SizeBytes, MaxLogId, MinLogId, EstimateRowCount;
    ShareOverBounds(n, db, target);
    ScaledDiv(n, db - target, w);
    MulDivFloor(db - target, w);
    QuotientWithin(n, w, target, (db - target) / w);
  }

  /** Trimming hits the target: with dense ids, rows of w bytes each that make up the size, no budget and a
      target within the size, what remains is at least the target and less than one row above it. */
  lemma TrimmingHitsTarget(s: Store, c: Settings, w: nat)
    requires c.pageSize >= 1 && EvenRows(s, c.pageSize, w)
    requires c.maxBytes < SizeBytes(s, c.pageSize) && c.targetBytes <= SizeBytes(s, c.pageSize)
    ensures var remaining := |s.rows| - |ExcessDoomed(s, 0, c)|;
            c.targetBytes <= remaining * w < c.targetBytes + w
  {
    var n, db, t := |s.rows|, SizeBytes(s, c.pageSize), c.targetBytes;
    assert |s.rows.Keys| == n && s.rows.Keys != {};
    ShareOfEvenRows(s, c.pageSize, t, w);
    var over := (db - t) / w;
    MulDivFloor(db - t, w);
    QuotientWithin(n, w, t, over);
    PrefixCount(s.rows, over);
    assert ExcessDoomed(s, 0, c) == UpToId(s.rows, MinLogId(s.rows) + over - 1);
  }

  lemma MulCancel(a: nat, b: nat, k: nat)
    requires k >= 1 && a * k <= b * k
    ensures a <= b
  {
  }

  lemma QuotientWithin(n: nat, w: nat, t: nat, q: nat)
    requires w >= 1 && t <= n * w && q * w <= n * w - t < (q + 1) * w
    ensures q <= n && t <= (n - q) * w < t + w
  {
    MulCancel(q, n, w);
    assert (n - q) * w == n * w - q * w;
  }

  lemma DenseRowsFillSpan(rows: map<int, Row>)
    requires rows.Keys != {} && EstimateRowCount(rows) == |rows|
    ensures rows.Keys == Range(MinLogId(rows), MinLogId(rows) + |rows|)
  {
    var lo, hi := MinLogId(rows), MaxLogId(rows);
    assert |rows.Keys| == |rows| && lo in rows.Keys && hi + 1 - lo == |rows|;
    forall x | x in rows.Keys ensures lo <= x < hi + 1 {
      MinIsLeast(rows, x);
    }
    hide MinLogId, MaxLogId, EstimateRowCount;
    SizeWithin(rows.Keys, lo, hi + 1);
  }

  /** Of dense rows, exactly the first k lie up to min + k - 1. */
  lemma PrefixCount(rows: map<int, Row>, k: nat)
    requires rows.Keys != {} && EstimateRowCount(rows) == |rows| && k <= |rows|
    ensures |UpToId(rows, MinLogId(rows) + k - 1)| == k
  {
    DenseRowsFillSpan(rows);
    var lo := MinLogId(rows);
    hide MinLogId, EstimateRowCount;
    RangeHolds(lo, lo + |rows|);
    RangeHolds(lo, lo + k);
    var gone, first := UpToId(rows, lo + k - 1), Range(lo, lo + k);
    forall x | x in gone ensures x in first {
      assert x in rows.Keys;
    }
    forall x | x in first ensures x in gone {
      assert x in rows.Keys;
    }
    Subset(gone, first);
    Subset(first, gone);
    SubsetSize(gone, first);
    SubsetSize(first, gone);
  }

  // ── Accuracy with a budget ─────────────────────────────────────────────────

  lemma EvenRowsBudget(s: Store, pageSize: nat, w: nat, limitMb: nat)
    requires EvenRows(s, pageSize, w)
    ensures AvgRowBytes(s, pageSize) == w && s.rows.Keys != {}
    ensures BudgetId(s, limitMb, pageSize) == MinLogId(s.rows) + limitMb * MB / w - 1
  {
    var n := |s.rows|;
    assert |s.rows.Keys| == n && s.rows.Keys != {};
    DivUnique(n * w, n, w, 0);
    assert n * w == w * n;
    hide MinLogId;
  }

  /** With a budget, too, size trimming is exact: of such rows it takes as many as are over target, or as many whole
      rows as the budget holds, whichever is less; and they are the oldest. */
  lemma BudgetedTrimmingIsExact(s: Store, limitMb: nat, c: Settings, w: nat)
    requires c.pageSize >= 1 && EvenRows(s, c.pageSize, w) && limitMb >= 1
    requires c.maxBytes < SizeBytes(s, c.pageSize) && c.targetBytes <= SizeBytes(s, c.pageSize)
    ensures var over, held := (SizeBytes(s, c.pageSize) - c.targetBytes) / w, limitMb * MB / w;
            var k := if over < held then over else held;
            && |ExcessDoomed(s, limitMb, c)| == k
            && forall id :: id in ExcessDoomed(s, limitMb, c) <==> id in s.rows && id < MinLogId(s.rows) + k
  {
    EvenRowsBudget(s, c.pageSize, w, limitMb);
    ShareOfEvenRows(s, c.pageSize, c.targetBytes, w);
    var over, held := (SizeBytes(s, c.pageSize) - c.targetBytes) / w, limitMb * MB / w;
    var k := if over < held then over else held;
    assert ExcessId(s, c.targetBytes, limitMb, c.pageSize) == MinLogId(s.rows) + k - 1 by {
      hide MinLogId, MaxLogId, ShareOver, BudgetId, EvenRows;
    }
    hide ExcessId, MinLogId, ShareOver, BudgetId, MaxLogId, AvgRowBytes, SizeBytes;
    PrefixCount(s.rows, k);
  }

  /** Age-based deletion with a budget takes, of such rows, exactly the stale ones among the first as many as the budget
      holds. */
  lemma BudgetedAgeingIsExact(s: Store, cutoff: string, limitMb: nat, c: Settings, w: nat)
    requires EvenRows(s, c.pageSize, w) && limitMb >= 1
    requires StaleWanted(MinTimestamp(s.rows, c.catalog.timestamp), cutoff)
    ensures forall id :: id in StaleDoomed(s, cutoff, limitMb, c) <==>
              && id in s.rows && Aged(s.rows, c.catalog.timestamp, Text(cutoff), id)
              && id < MinLogId(s.rows) + limitMb * MB / w
  {
    EvenRowsBudget(s, c.pageSize, w, limitMb);
    hide BudgetId, Aged, MinTimestamp;
    forall id | id in s.rows ensures id <= MaxLogId(s.rows) {
      MinIsLeast(s.rows, id);
    }
    hide MaxLogId, MinLogId;
  }

  // ── Pages ──────────────────────────────────────────────────────────────────

  lemma Quotient(a: nat, d: nat) returns (q: nat)
    requires d >= 1
    ensures q == a / d && q * d <= a < (q + 1) * d
  {
    q := a / d;
    MulDivFloor(a, d);
  }

  /** An incremental pass returns as many free pages as its budget holds, and no row; with a page above the budget,
      all of them. */
  lemma IncrementalPassKeepsBudget(s: Store, c: Settings)
    requires c.pageSize >= 1
    ensures var after := IncrementalPass(s, c); var returned := s.freePages - after.freePages;
            && after.rows == s.rows && after.usedPages == s.usedPages && returned >= 0
            && (if c.pageSize > c.passMb * MB then after.freePages == 0
                else
                  && returned * c.pageSize <= c.passMb * MB
                  && (after.freePages > 0 ==> (returned + 1) * c.pageSize > c.passMb * MB))
  {
    var q := Quotient(c.passMb * MB, c.pageSize);
    var after := IncrementalPass(s, c);
    var returned := s.freePages - after.freePages;
    if c.pageSize <= c.passMb * MB {
      DivPositive(c.passMb * MB, c.pageSize);
      assert returned == if q < s.freePages then q else s.freePages;
      MulMonotone(returned, q, c.pageSize);
    } else {
      MulCancelStrict(q, c.pageSize, c.passMb * MB);
    }
  }

  lemma MulCancelStrict(q: nat, d: nat, a: nat)
    requires q * d <= a < d
    ensures q == 0
  {
  }

  /** A deletion moves pages to the freelist and loses none, and the size falls by exactly those pages. */
  lemma DeletionKeepsPages(s: Store, doomed: set<int>, freed: nat, pageSize: nat)
    ensures var after := AfterDelete(s, doomed, freed); var moved := after.freePages - s.freePages;
            && moved >= 0 && after.usedPages + moved == s.usedPages
            && SizeBytes(after, pageSize) + moved * pageSize == SizeBytes(s, pageSize)
            && (after.usedPages == 0 ==> SizeBytes(after, pageSize) == 0)
  {
    var after := AfterDelete(s, doomed, freed);
    assert (after.usedPages + (after.freePages - s.freePages)) * pageSize
        == after.usedPages * pageSize + (after.freePages - s.freePages) * pageSize;
  }

  // ── Progress ───────────────────────────────────────────────────────────────

  /** Fewer rows, or as many rows and fewer free pages. */
  predicate Below(a: Store, b: Store) {
    |a.rows| < |b.rows| || (|a.rows| == |b.rows| && a.freePages < b.freePages)
  }

  lemma DeletionShrinks(s: Store, doomed: set<int>, freed: nat)
    ensures var after := AfterDelete(s, doomed, freed);
            after == s || |after.rows| < |s.rows|
  {
    var after := AfterDelete(s, doomed, freed);
    if !(forall id :: id in s.rows ==> id !in doomed) {
      var id :| id in s.rows && id in doomed;
      assert after.rows.Keys == s.rows.Keys - doomed;
      assert id in s.rows.Keys && id !in after.rows.Keys;
      SubsetSize(after.rows.Keys, s.rows.Keys);
      assert |after.rows| == |after.rows.Keys| && |s.rows| == |s.rows.Keys|;
    }
  }

  lemma IncrementalPassProgress(s: Store, c: Settings)
    requires SettingsOk(c) && c.pageSize <= c.passMb * MB
    ensures var after := IncrementalPass(s, c);
            && after.rows == s.rows && after.usedPages == s.usedPages
            && (if s.freePages == 0 then after == s else after.freePages < s.freePages)
  {
    if s.freePages > 0 {
      DivPositive(c.passMb * MB, c.pageSize);
    }
  }

  lemma DivPositive(a: nat, b: nat)
    requires 1 <= b <= a
    ensures a / b >= 1
  {
  }

  /** With no ingest, in incremental mode and a page within the budget, every pass that changes anything
      strictly lowers the pair (rows, free pages), and a pass deletes rows only after draining the freelist. */
  lemma PassMakesProgress(s: Store, i: Input, c: Settings)
    requires SettingsOk(c) && c.mode == IncrementalVacuum && c.pageSize <= c.passMb * MB
    ensures var after := Pass(s, i, c);
            && (after == s || Below(after, s))
            && (after.rows != s.rows ==> IncrementalPass(s, c).freePages == 0)
  {
    IncrementalPassProgress(s, c);
    var s1 := IncrementalPass(s, c);
    if s1.freePages == 0 {
      DeletionShrinks(s1, StaleDoomed(s1, i.cutoff, c.passMb, c), i.freedByAge);
      var s2 := if c.catalog.HasColumn(c.catalog.timestamp)
                then AfterDelete(s1, StaleDoomed(s1, i.cutoff, c.passMb, c), i.freedByAge) else s1;
      DeletionShrinks(s2, ExcessDoomed(s2, c.passMb, c), i.freedBySize);
    }
  }

  ghost function AfterPasses(s: Store, inputs: nat -> Input, c: Settings, n: nat): Store
    requires c.pageSize >= 1
  {
    if n == 0 then s else Pass(AfterPasses(s, inputs, c, n - 1), inputs(n - 1), c)
  }

  lemma OneMorePass(s: Store, inputs: nat -> Input, c: Settings, n: nat)
    requires c.pageSize >= 1
    ensures AfterPasses(s, inputs, c, n + 1) == Pass(AfterPasses(s, inputs, c, n), inputs(n), c)
  {
    hide Pass;
  }

  /** What a later pass starts from is what an earlier one did, or less. */
  lemma {:induction false} PassesOnlyLower(s: Store, inputs: nat -> Input, c: Settings, n: nat, m: nat)
    requires SettingsOk(c) && c.mode == IncrementalVacuum && c.pageSize <= c.passMb * MB && n <= m
    ensures var early, late := AfterPasses(s, inputs, c, n), AfterPasses(s, inputs, c, m);
            late == early || Below(late, early)
    decreases m
  {
    hide AfterPasses, Pass;
    if n < m {
      PassesOnlyLower(s, inputs, c, n, m - 1);
      PassMakesProgress(AfterPasses(s, inputs, c, m - 1), inputs(m - 1), c);
      OneMorePass(s, inputs, c, m - 1);
    }
  }

  ghost predicate RestsFrom(s: Store, inputs: nat -> Input, c: Settings, n: nat)
    requires c.pageSize >= 1
  {
    forall m: nat :: n <= m ==> AfterPasses(s, inputs, c, m) == AfterPasses(s, inputs, c, n)
  }

  /** Vacuum terminates: whatever the clock and the freed pages, from some pass on nothing changes any more. */
  lemma {:induction false} VacuumReachesRest(s: Store, inputs: nat -> Input, c: Settings, from: nat) returns (n: nat)
    requires SettingsOk(c) && c.mode == IncrementalVacuum && c.pageSize <= c.passMb * MB
    ensures n >= from && RestsFrom(s, inputs, c, n)
    ensures forall m: nat :: n <= m ==> Pass(AfterPasses(s, inputs, c, n), inputs(m), c) == AfterPasses(s, inputs, c, n)
    decreases |AfterPasses(s, inputs, c, from).rows|, AfterPasses(s, inputs, c, from).freePages
  {
    if m: nat :| from <= m && AfterPasses(s, inputs, c, m + 1) != AfterPasses(s, inputs, c, m) {
      PassesOnlyLower(s, inputs, c, from, m);
      PassMakesProgress(AfterPasses(s, inputs, c, m), inputs(m), c);
      hide Pass;
      n := VacuumReachesRest(s, inputs, c, m + 1);
    } else {
      n := from;
      hide Pass;
      forall m: nat | n <= m ensures AfterPasses(s, inputs, c, m) == AfterPasses(s, inputs, c, n) {
        StillAt(s, inputs, c, n, m);
      }
      forall m: nat | n <= m ensures Pass(AfterPasses(s, inputs, c, n), inputs(m), c) == AfterPasses(s, inputs, c, n) {
        assert AfterPasses(s, inputs, c, m) == AfterPasses(s, inputs, c, n);
        assert AfterPasses(s, inputs, c, m + 1) == AfterPasses(s, inputs, c, n);
      }
    }
  }

  lemma {:induction false} StillAt(s: Store, inputs: nat -> Input, c: Settings, n: nat, m: nat)
    requires c.pageSize >= 1 && n <= m
    requires forall k: nat :: n <= k ==> AfterPasses(s, inputs, c, k + 1) == AfterPasses(s, inputs, c, k)
    ensures AfterPasses(s, inputs, c, m) == AfterPasses(s, inputs, c, n)
    decreases m
  {
    hide AfterPasses;
    if n < m {
      StillAt(s, inputs, c, n, m - 1);
      var k := m - 1;
      assert AfterPasses(s, inputs, c, k + 1) == AfterPasses(s, inputs, c, k);
    }
  }

  /** What a pass may delete in one go: in incremental mode its budget, otherwise anything. */
  function PassLimit(c: Settings): nat { if c.mode == IncrementalVacuum then c.passMb else 0 }

  /** The size is within the maximum, or there is nothing a size-triggered deletion may take. */
  ghost predicate SizeSettled(s: Store, limitMb: nat, c: Settings)
    requires c.pageSize >= 1
  {
    || SizeBytes(s, c.pageSize) <= c.maxBytes || s.rows.Keys == {}
    || ShareOver(Span(s.rows), SizeBytes(s, c.pageSize), c.targetBytes) < 1
    || (limitMb > 0 && SizeBytes(s, c.pageSize) / Span(s.rows) > limitMb * MB)
  }

  ghost predicate NothingStale(s: Store, cutoff: string, limitMb: nat, c: Settings) {
    c.catalog.HasColumn(c.catalog.timestamp) ==>
      forall id :: id in s.rows ==> id !in StaleDoomed(s, cutoff, limitMb, c)
  }

  /** What rest means, in every mode: a pass changes nothing if and only if there are no free pages to return where the
      mode returns any, age-based deletion has nothing to take, and the size is settled. How many pages a deletion
      would free plays no part. */
  lemma PassRestsExactlyWhen(s: Store, i: Input, c: Settings)
    requires SettingsOk(c) && (c.mode == IncrementalVacuum ==> c.pageSize <= c.passMb * MB)
    ensures Pass(s, i, c) == s <==>
              && (c.mode == NoVacuum || s.freePages == 0)
              && NothingStale(s, i.cutoff, PassLimit(c), c) && SizeSettled(s, PassLimit(c), c)
  {
    var limit := PassLimit(c);
    if c.mode == IncrementalVacuum {
      IncrementalPassProgress(s, c);
    }
    if c.mode != IncrementalVacuum || s.freePages == 0 {
      var s2 := if c.catalog.HasColumn(c.catalog.timestamp)
                then AfterDelete(s, StaleDoomed(s, i.cutoff, limit, c), i.freedByAge) else s;
      AfterDeleteKeeps(s, StaleDoomed(s, i.cutoff, limit, c), i.freedByAge);
      AfterDeleteKeeps(s2, ExcessDoomed(s2, limit, c), i.freedBySize);
      DeletionShrinks(s, StaleDoomed(s, i.cutoff, limit, c), i.freedByAge);
      DeletionShrinks(s2, ExcessDoomed(s2, limit, c), i.freedBySize);
      ExcessTakesNothingExactlyWhen(s, limit, c);
      hide StaleDoomed, ExcessDoomed, SizeSettled, AfterDelete, IncrementalPass;
    }
  }

  lemma AfterDeleteKeeps(s: Store, doomed: set<int>, freed: nat)
    ensures AfterDelete(s, doomed, freed) == s <==> forall id :: id in s.rows ==> id !in doomed
  {
    DeletionShrinks(s, doomed, freed);
    if !(forall id :: id in s.rows ==> id !in doomed) {
      var id :| id in s.rows && id in doomed;
      assert id !in AfterDelete(s, doomed, freed).rows;
    }
  }

  lemma ExcessTakesNothingExactlyWhen(s: Store, limitMb: nat, c: Settings)
    requires SettingsOk(c)
    ensures (forall id :: id in s.rows ==> id !in ExcessDoomed(s, limitMb, c)) <==> SizeSettled(s, limitMb, c)
  {
    if SizeBytes(s, c.pageSize) > c.maxBytes && s.rows.Keys != {} {
      assert MinLogId(s.rows) in s.rows.Keys;
      forall id | id in s.rows ensures MinLogId(s.rows) <= id {
        MinIsLeast(s.rows, id);
      }
      if limitMb > 0 {
        AverageIsOverSpan(s, c.pageSize);
        BelowOneExactlyWhen(limitMb * MB, AvgRowBytes(s, c.pageSize));
      }
      hide MinLogId, MaxLogId, AvgRowBytes, ShareOver;
    } else if s.rows.Keys == {} {
      assert forall id :: id in s.rows ==> id in s.rows.Keys;
    }
  }

  lemma BelowOneExactlyWhen(a: nat, d: nat)
    requires d >= 1
    ensures a / d < 1 <==> a < d
  {
  }
}
