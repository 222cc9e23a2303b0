/** Which texts outlive restarts in every run: a condition producers can check before they hand an entry in. */
module Survival {
  import opened IdSets
  import opened Results
  import opened LogTable
  import opened Backlogs
  import opened Dictionary
  import W = Writer
  import opened Storage
  import opened Aborts
  import opened LiveTail
  import opened Service
  import opened Accounting
  import opened Runs
  import opened Conservation
  import opened Decoding

  /** Some entry producers may hand in brings the text to the dictionary. */
  ghost predicate Brought(ok: LogEntry -> bool, cat: Catalog, p: ColumnText) {
    exists e: LogEntry :: ok(e) && p in TextsOf(cat, cat.DataColumns(), e)
  }

  /** And one of them can be stored. */
  ghost predicate Storable(ok: LogEntry -> bool, cat: Catalog, p: ColumnText) {
    exists e: LogEntry :: ok(e) && !LacksRequired(e, cat.DataColumns()) && p in TextsOf(cat, cat.DataColumns(), e)
  }

  /** The dictionary table gives every storable text back whole, and no other text of its column as it. */
  ghost predicate KeepsApart(ok: LogEntry -> bool, cat: Catalog) {
    && (forall p :: Storable(ok, cat, p) ==> cat.Kept(p.text) == p.text)
    && (forall p, q :: Storable(ok, cat, p) && Brought(ok, cat, q) && q.column == p.column && cat.Kept(q.text) == p.text
          ==> q.text == p.text)
  }

  ghost predicate HandsIn(events: seq<Event>, ok: LogEntry -> bool) {
    forall k :: 0 <= k < |events| && events[k].AddEntry? ==> ok(events[k].entry)
  }

  // ── Sufficient ─────────────────────────────────────────────────────────────

  /** Memory holds texts of entries handed in, and texts a restart brought back. */
  ghost predicate MemoryBrought(s: State, ok: LogEntry -> bool, cat: Catalog) {
    forall p :: Knows(s.lookup, p) ==> Brought(ok, cat, p) || cat.Kept(p.text) == p.text
  }

  ghost predicate ArrivalsOk(s: State, ok: LogEntry -> bool) {
    forall i :: 0 <= i < |s.arrivals| ==> ok(s.arrivals[i])
  }

  lemma {:induction false} BatchTextIsOfAnEntry(cat: Catalog, cols: seq<Column>, entries: seq<LogEntry>, p: ColumnText)
    returns (j: nat)
    requires p in BatchTexts(cat, cols, entries)
    ensures j < |entries| && p in TextsOf(cat, cols, entries[j])
  {
    j := |entries| - 1;
    if p !in TextsOf(cat, cols, entries[j]) {
      j := BatchTextIsOfAnEntry(cat, cols, entries[..j], p);
    }
  }

  lemma {:induction false} CompleteEntryBringsText(cat: Catalog, cols: seq<Column>, entry: LogEntry, c: Column)
    requires c in cols && c.name in cat.compressed && W.Raw(entry, c.name) != JNull && !LacksRequired(entry, cols)
    ensures ColumnText(c.name, StoredText(W.Raw(entry, c.name))) in TextsOf(cat, cols, entry)
  {
    var k := |cols| - 1;
    assert !LacksRequired(entry, cols[..k]);
    if cols[k] != c {
      assert cols == cols[..k] + [cols[k]];
      CompleteEntryBringsText(cat, cols[..k], entry, c);
    }
  }

  lemma LearntIsBrought(s: State, faults: W.Faults, c: Config, ok: LogEntry -> bool, p: ColumnText)
    requires PipelineSound(s, c) && s.flush.Holding? && ArrivalsOk(s, ok)
    requires var entries := EntriesOf(s.arrivals, s.flush.batch);
             p in BatchTexts(c.catalog, c.catalog.DataColumns(), entries)
    ensures Brought(ok, c.catalog, p)
  {
    var entries := EntriesOf(s.arrivals, s.flush.batch);
    var j := BatchTextIsOfAnEntry(c.catalog, c.catalog.DataColumns(), entries, p);
    assert entries[j] == s.arrivals[s.flush.batch[j]];
    hide TextsOf;
    assert ok(entries[j]);
  }

  lemma InsertBrings(s: State, faults: W.Faults, maxIdFails: bool, c: Config, ok: LogEntry -> bool)
    requires PipelineSound(s, c) && s.flush.Holding? && ArrivalsOk(s, ok) && MemoryBrought(s, ok, c.catalog)
    ensures MemoryBrought(RunInsert(s, faults, maxIdFails, c), ok, c.catalog)
  {
    var entries, cols := EntriesOf(s.arrivals, s.flush.batch), c.catalog.DataColumns();
    var after := RunInsert(s, faults, maxIdFails, c);
    var begun := W.Begun(s.tables, s.lookup, faults);
    forall p | Knows(after.lookup, p) ensures Brought(ok, c.catalog, p) || c.catalog.Kept(p.text) == p.text {
      OnlyBatchTextsAreLearnt(begun, c.catalog, cols, entries, faults, p);
      assert Knows(s.lookup, p) || p in BatchTexts(c.catalog, cols, entries) by {
        hide W.InsertEntries, BatchTexts, EntriesOf, Mark, Knows, MaxLogId;
      }
      if !Knows(s.lookup, p) {
        LearntIsBrought(s, faults, c, ok, p);
      }
      hide RunInsert, W.Begun, Brought, BatchTexts, Knows;
    }
  }

  lemma LoadedIsWhole(dict: seq<DictRow>, cat: Catalog, p: ColumnText)
    requires Rising(dict) && Settled(dict, cat) && Knows(Load(dict), p)
    ensures cat.Kept(p.text) == p.text
  {
    LoadIsPersisted(dict, cat, DictRow(p.column, p.text, Load(dict)[p.column][p.text]));
    hide Load, Rising, Catalog.Kept;
  }

  lemma StepBrings(s: State, e: Event, c: Config, ok: LogEntry -> bool)
    requires Sound(s, c) && c.backlogMax >= 1 && ArrivalsOk(s, ok) && MemoryBrought(s, ok, c.catalog)
    requires e.AddEntry? ==> ok(e.entry)
    ensures ArrivalsOk(Step(s, e, c), ok) && MemoryBrought(Step(s, e, c), ok, c.catalog)
  {
    StepArrivals(s, e, c);
    hide PipelineSound, TailSound, Mark, RunInsert, SessionStep, Load, Brought, Knows, Catalog.Kept;
    if e.InsertJob? {
      if s.flush.Holding? {
        InsertBrings(s, e.faults, e.maxIdFails, c, ok);
      }
    } else if e.Restart? {
      forall p | Knows(Load(s.tables.dict), p) ensures c.catalog.Kept(p.text) == p.text {
        LoadedIsWhole(s.tables.dict, c.catalog, p);
      }
    }
  }

  /** A text that is in a row is storable. */
  lemma OwnedTextIsStorable(s: State, c: Config, ok: LogEntry -> bool, id: int, i: int, name: string)
    requires ArrivalsOk(s, ok) && RowOwned(s, c.catalog, id, i)
    requires name in s.tables.rows[id] && name in c.catalog.compressed && W.Raw(s.arrivals[i], name) != JNull
    ensures Storable(ok, c.catalog, ColumnText(name, StoredText(W.Raw(s.arrivals[i], name))))
  {
    var e, cols := s.arrivals[i], c.catalog.DataColumns();
    hide CellFor, LastUnder, TextsOf, StoredText;
    assert !LacksRequired(e, cols);
    var column :| column in cols && column.name == name;
    CompleteEntryBringsText(c.catalog, cols, e, column);
    assert ok(e);
  }

  /** Another entry whose text is given back as one that is apart from all others is the same entry. */
  lemma ApartSurvives(s: State, cat: Catalog, ok: LogEntry -> bool, r: DictRow)
    requires MemoryBrought(s, ok, cat) && KeepsApart(ok, cat) && Storable(ok, cat, ColumnText(r.column, r.value))
    requires Holds(s.lookup, r)
    ensures Survives(s.lookup, s.tables.dict, cat, r)
  {
    var p := ColumnText(r.column, r.value);
    hide Storable, Brought, Catalog.Kept;
    assert cat.Kept(p.text) == p.text;
    forall x | Persisted(s.lookup, s.tables.dict, cat, x) && x.column == r.column && cat.Kept(x.value) == r.value
      ensures x.id <= r.id
    {
      var q := ColumnText(x.column, x.value);
      assert Knows(s.lookup, q);
      assert x.value == r.value;
      OneEntryPerText(s.lookup, r);
    }
  }

  lemma ApartTextsSurvive(s: State, c: Config, ok: LogEntry -> bool)
    requires ArrivalsOk(s, ok) && MemoryBrought(s, ok, c.catalog)
    requires KeepsApart(ok, c.catalog) && AllDecode(s, c.catalog)
    ensures TextsSurvive(s, c.catalog)
  {
    forall id, i | RowOwned(s, c.catalog, id, i)
      ensures RowSurvives(s.arrivals[i], s.tables.rows[id], c.catalog, s.lookup, s.tables.dict)
    {
      var entry, row := s.arrivals[i], s.tables.rows[id];
      assert RowDecodes(entry, row, c.catalog, s.lookup);
      hide AllDecode, KeepsApart, MemoryBrought, ArrivalsOk, Survives, Holds, Storable, RowFor, LastUnder, StoredText;
      forall name | name in row && name in c.catalog.compressed && W.Raw(entry, name) != JNull
        ensures row[name].Int?
        ensures Survives(s.lookup, s.tables.dict, c.catalog,
                         DictRow(name, StoredText(W.Raw(entry, name)), row[name].n))
      {
        OwnedTextIsStorable(s, c, ok, id, i, name);
        ApartSurvives(s, c.catalog, ok, DictRow(name, StoredText(W.Raw(entry, name)), row[name].n));
      }
    }
  }

  lemma ApartStep(s: State, e: Event, c: Config, ok: LogEntry -> bool)
    requires Sound(s, c) && c.backlogMax >= 1 && KeepsApart(ok, c.catalog) && (e.AddEntry? ==> ok(e.entry))
    requires ArrivalsOk(s, ok) && MemoryBrought(s, ok, c.catalog) && AllDecode(s, c.catalog)
    ensures var after := Step(s, e, c);
            ArrivalsOk(after, ok) && MemoryBrought(after, ok, c.catalog) && AllDecode(after, c.catalog)
  {
    StepBrings(s, e, c, ok);
    hide AllDecode, TextsSurvive, Sound, KeepsApart, MemoryBrought, ArrivalsOk, Restarted, Step;
    if e == Restart {
      RestartStep(s, c);
      ApartTextsSurvive(s, c, ok);
      RestartDecodesExactlyWhen(s, c);
    } else {
      StepKeepsDecoding(s, e, c);
    }
  }

  lemma StartsApart(c: Config, ok: LogEntry -> bool)
    ensures ArrivalsOk(Start(c), ok) && MemoryBrought(Start(c), ok, c.catalog) && AllDecode(Start(c), c.catalog)
  {
  }

  lemma {:induction false} ApartUpTo(events: seq<Event>, c: Config, ok: LogEntry -> bool, k: nat)
    requires c.backlogMax >= 1 && k <= |events| && HandsIn(events, ok) && KeepsApart(ok, c.catalog)
    ensures var s := Run(events[..k], c);
            ArrivalsOk(s, ok) && MemoryBrought(s, ok, c.catalog) && AllDecode(s, c.catalog)
  {
    hide Run, Step, AllDecode, Sound, KeepsApart, MemoryBrought, ArrivalsOk, Start;
    if k == 0 {
      assert events[..0] == [];
      RunOfNone(c);
      StartsApart(c, ok);
    } else {
      ApartUpTo(events, c, ok, k - 1);
      RunStep(events, c, k - 1);
      EveryRunIsSound(events[..k - 1], c);
      ApartStep(Run(events[..k - 1], c), events[k - 1], c, ok);
    }
  }

  // ── Necessary ──────────────────────────────────────────────────────────────

  /** Between two flushes, nothing in flight. */
  predicate Idle(s: State) { s.queue.items == [] && s.flush == Polling }

  /** SQLite takes everything the entry brings. */
  ghost function Granted(s: State, c: Config, e: LogEntry): W.Faults {
    W.Faults(false, {}, |New(s.lookup, BatchTexts(c.catalog, c.catalog.DataColumns(), [e]))|, 1, false)
  }

  ghost function Intake(s: State, c: Config, e: LogEntry): seq<Event> {
    [AddEntry(e), Drain, InsertJob(Granted(s, c, e), false)]
  }

  /** What one entry leaves behind when nothing fails. */
  ghost predicate TakenIn(s: State, after: State, c: Config, e: LogEntry) {
    var cols := c.catalog.DataColumns();
    && after.flush.Publishing? && after.queue.items == [] && after.arrivals == s.arrivals + [e]
    && after.deleted == s.deleted
    && |after.status| == |s.status| + 1 && after.status[..|s.status|] == s.status
    && after.status[|s.status|].Stored? == !LacksRequired(e, cols)
    && (forall id :: after.status[|s.status|] == Stored(id) ==> RowOwned(after, c.catalog, id, |s.status|))
    && (forall p :: Knows(after.lookup, p) <==> Knows(s.lookup, p) || p in TextsOf(c.catalog, cols, e))
    && Extends(s.lookup, after.lookup)
    && (forall id, i :: RowOwned(s, c.catalog, id, i) ==>
          RowOwned(after, c.catalog, id, i) && after.tables.rows[id] == s.tables.rows[id])
  }

  lemma OneEntryCommits(s: State, c: Config, e: LogEntry)
    requires InStep(s.lookup, s.tables.dict, c.catalog) && IdsSound(s.tables.rows, s.tables.sequence)
    requires c.catalog.DataColumns() != []
    ensures var r := W.InsertBatch(s.tables, s.lookup, c.catalog, [e], Granted(s, c, e));
            && r.Committed? && |r.fates| == 1 && (r.fates[0].Inserted? <==> !LacksRequired(e, c.catalog.DataColumns()))
            && InsertSound(s.tables, s.lookup, c.catalog, [e], r)
            && Extends(s.lookup, r.lookup)
            && (forall p :: Knows(r.lookup, p) <==>
                  Knows(s.lookup, p) || p in TextsOf(c.catalog, c.catalog.DataColumns(), e))
  {
    var faults, cols := Granted(s, c, e), c.catalog.DataColumns();
    var begun := W.Begun(s.tables, s.lookup, faults);
    AbortsExactlyWhen(s.tables, s.lookup, c.catalog, [e], faults);
    InsertIsSound(s.tables, s.lookup, c.catalog, [e], faults);
    EntriesCost(begun, c.catalog, cols, [e], faults);
    EntriesExtend(begun, c.catalog, cols, [e], faults);
    assert [e][..0] == [];
    assert BatchTexts(c.catalog, cols, [e]) == {} + TextsOf(c.catalog, cols, e);
    hide W.InsertEntries, New, InsertSound, BatchTexts, TextsOf, LacksRequired, Extends, Knows;
  }

  /** The state with the entry in the hand of the flush task. */
  function InHand(s: State, e: LogEntry): State {
    s.(queue := Empty(), flush := Holding([|s.status|]), arrivals := s.arrivals + [e], status := s.status + [Held])
  }

  /** The state after the job of the entry in hand. */
  ghost function AfterHand(s: State, e: LogEntry, r: W.InsertResult): State
    requires r.Committed? && |r.fates| == 1
  {
    InHand(s, e).(tables := r.tables, lookup := r.lookup, flush := Publishing(MaxLogId(r.tables.rows)),
                  status := s.status + [StatusOf(r.fates[0])])
  }

  lemma InsertTakesIn(s: State, c: Config, e: LogEntry) returns (r: W.InsertResult)
    requires Sound(InHand(s, e), c) && |s.status| == |s.arrivals| && c.catalog.DataColumns() != []
    requires c.backlogMax >= 1
    ensures r == W.InsertBatch(s.tables, s.lookup, c.catalog, [e], Granted(s, c, e))
    ensures r.Committed? && |r.fates| == 1
    ensures var held := InHand(s, e);
            && EntriesOf(held.arrivals, held.flush.batch) == [e]
            && Step(held, InsertJob(Granted(s, c, e), false), c) == AfterHand(s, e, r)
  {
    HandIsInStep(s, c, e);
    hide W.InsertBatch, Sound, InsertSound, MaxLogId, TextsOf, LacksRequired, Extends, Knows, New, BatchTexts, InStep;
    hide Granted, IdsSound, Step;
    OneEntryCommits(s, c, e);
    r := W.InsertBatch(s.tables, s.lookup, c.catalog, [e], Granted(s, c, e));
    CommitOfHand(s, c, e, Granted(s, c, e), r);
  }

  lemma CommitOfHand(s: State, c: Config, e: LogEntry, faults: W.Faults, r: W.InsertResult)
    requires c.backlogMax >= 1 && |s.status| == |s.arrivals| && r.Committed? && |r.fates| == 1
    requires r == W.InsertBatch(s.tables, s.lookup, c.catalog, [e], faults)
    ensures var held := InHand(s, e);
            && EntriesOf(held.arrivals, held.flush.batch) == [e]
            && Step(held, InsertJob(faults, false), c) == AfterHand(s, e, r)
  {
    var held := InHand(s, e);
    assert EntriesOf(held.arrivals, [|s.status|]) == [e];
    assert StatusesOf(r.fates) == [StatusOf(r.fates[0])];
    hide Mark, EntriesOf, StatusesOf, W.InsertBatch, MaxLogId;
    MarkLast(s.status, Held, StatusOf(r.fates[0]));
  }

  lemma HandIsInStep(s: State, c: Config, e: LogEntry)
    requires Sound(InHand(s, e), c)
    ensures InStep(s.lookup, s.tables.dict, c.catalog) && IdsSound(s.tables.rows, s.tables.sequence)
  {
    hide PipelineSound, TailSound, InStep, Agrees, RowOwned, IdsSound;
  }

  /** The job of a single entry, with nothing failing. */
  lemma HeldEntryIsTakenIn(s: State, c: Config, e: LogEntry)
    requires Sound(InHand(s, e), c) && |s.status| == |s.arrivals| && c.catalog.DataColumns() != []
    requires c.backlogMax >= 1
    ensures TakenIn(s, Step(InHand(s, e), InsertJob(Granted(s, c, e), false), c), c, e)
  {
    hide Step, W.InsertBatch, InsertSound, MaxLogId, TextsOf, LacksRequired, Extends, Knows, New, BatchTexts, EntriesOf;
    hide RowFor, LastUnder, Sound, InStep, IdsSound, Granted;
    var held := InHand(s, e);
    var r := InsertTakesIn(s, c, e);
    HandIsInStep(s, c, e);
    OneEntryCommits(s, c, e);
    var after := Step(held, InsertJob(Granted(s, c, e), false), c);
    forall id, i | RowOwned(s, c.catalog, id, i)
      ensures RowOwned(after, c.catalog, id, i) && after.tables.rows[id] == s.tables.rows[id]
    {
      OwnerIsTakenAlong(s, c, e, r, id, i);
    }
    forall id | after.status[|s.status|] == Stored(id) ensures RowOwned(after, c.catalog, id, |s.status|) {
      NewOwnerIsTakenIn(s, c, e, r, id);
    }
  }

  lemma NewOwnerIsTakenIn(s: State, c: Config, e: LogEntry, r: W.InsertResult, id: int)
    requires |s.status| == |s.arrivals| && r.Committed? && |r.fates| == 1
    requires InsertSound(s.tables, s.lookup, c.catalog, [e], r) && StatusOf(r.fates[0]) == Stored(id)
    ensures RowOwned(AfterHand(s, e, r), c.catalog, id, |s.status|)
  {
    hide InStep, IdsSound, LacksRequired, MaxLogId, RowFor;
    assert AssignedTo(r.fates, 0, id);
  }

  lemma HandCommits(s: State, c: Config, e: LogEntry, r: W.InsertResult)
    requires Sound(InHand(s, e), c) && |s.status| == |s.arrivals|
    requires r.Committed? && |r.fates| == 1 && InsertSound(s.tables, s.lookup, c.catalog, [e], r)
    requires EntriesOf(s.arrivals + [e], [|s.status|]) == [e]
    ensures StorageSound(InHand(s, e), c.catalog) && Commits(InHand(s, e), AfterHand(s, e, r), r.fates, c.catalog)
  {
    assert StatusesOf(r.fates) == [StatusOf(r.fates[0])];
    hide Mark, StatusesOf, EntriesOf, MaxLogId, StorageSound, TailSound, StatusOf, InsertSound;
    MarkLast(s.status, Held, StatusOf(r.fates[0]));
  }

  lemma OwnerIsTakenAlong(s: State, c: Config, e: LogEntry, r: W.InsertResult, id: int, i: int)
    requires Sound(InHand(s, e), c) && |s.status| == |s.arrivals| && RowOwned(s, c.catalog, id, i)
    requires r.Committed? && |r.fates| == 1 && InsertSound(s.tables, s.lookup, c.catalog, [e], r)
    requires EntriesOf(s.arrivals + [e], [|s.status|]) == [e]
    ensures var after := AfterHand(s, e, r);
            RowOwned(after, c.catalog, id, i) && after.tables.rows[id] == s.tables.rows[id]
  {
    var held, after := InHand(s, e), AfterHand(s, e, r);
    assert RowOwned(held, c.catalog, id, i) by { HandKeepsOwner(s, c, e, id, i); }
    RowsAreKept(s, c, e, r, id);
    hide InsertSound, StorageSound, Commits, Sound, RowOwned, MaxLogId, EntriesOf;
    HandCommits(s, c, e, r);
    var j := CommitKeepsOwner(held, after, r.fates, c.catalog, id);
    OneOwner(held, c.catalog, id, i, j);
  }

  lemma HandKeepsOwner(s: State, c: Config, e: LogEntry, id: int, i: int)
    requires RowOwned(s, c.catalog, id, i) && |s.status| == |s.arrivals|
    ensures RowOwned(InHand(s, e), c.catalog, id, i) && id in s.tables.rows
  {
    hide RowFor;
  }

  lemma RowsAreKept(s: State, c: Config, e: LogEntry, r: W.InsertResult, id: int)
    requires r.Committed? && InsertSound(s.tables, s.lookup, c.catalog, [e], r) && id in s.tables.rows
    ensures id in r.tables.rows
  {
  }

  lemma EntryReachesHand(events: seq<Event>, s: State, c: Config, e: LogEntry)
    requires c.backlogMax >= 1 && Run(events, c) == s && Idle(s) && |s.status| == |s.arrivals|
    ensures Run(events + [AddEntry(e)] + [Drain], c) == InHand(s, e)
  {
    hide Run, Step;
    RunOne(c, events, AddEntry(e), s);
    EntryIsQueued(s, e, c);
    var s1 := Step(s, AddEntry(e), c);
    RunOne(c, events + [AddEntry(e)], Drain, s1);
    QueueIsDrained(s1, s.status, c);
  }

  lemma IntakeRuns(events: seq<Event>, s: State, c: Config, e: LogEntry)
    requires c.backlogMax >= 1 && Run(events, c) == s && Idle(s) && c.catalog.DataColumns() != []
    ensures TakenIn(s, Run(events + Intake(s, c, e), c), c, e)
  {
    var job := InsertJob(Granted(s, c, e), false);
    hide Run, Step, Sound, Granted, TakenIn, InHand;
    EveryRunIsSound(events, c);
    InRange(s, c);
    EntryReachesHand(events, s, c, e);
    EveryRunIsSound(events + [AddEntry(e)] + [Drain], c);
    RunOne(c, events + [AddEntry(e)] + [Drain], job, InHand(s, e));
    assert events + Intake(s, c, e) == events + [AddEntry(e)] + [Drain] + [job];
    HeldEntryIsTakenIn(s, c, e);
  }

  lemma InRange(s: State, c: Config)
    requires Sound(s, c)
    ensures |s.status| == |s.arrivals|
  {
  }

  /** The texts of one entry in one column are one. */
  lemma {:induction false} TextIsOfEntry(cat: Catalog, cols: seq<Column>, e: LogEntry, p: ColumnText)
    requires p in TextsOf(cat, cols, e)
    ensures p.column in cat.compressed && W.Raw(e, p.column) != JNull && p.text == StoredText(W.Raw(e, p.column))
    ensures exists column :: column in cols && column.name == p.column
  {
    var k := |cols| - 1;
    assert cols[k] in cols;
    if p in TextsOf(cat, cols[..k], e) {
      TextIsOfEntry(cat, cols[..k], e, p);
      var column :| column in cols[..k] && column.name == p.column;
      assert column in cols;
    }
  }

  /** The first entry of a run, stored: its row holds an id for each of its texts. */
  lemma FirstRow(s: State, c: Config, e: LogEntry, p: ColumnText) returns (id: int)
    requires TakenIn(Start(c), s, c, e) && Sound(s, c) && p in TextsOf(c.catalog, c.catalog.DataColumns(), e)
    requires !LacksRequired(e, c.catalog.DataColumns())
    ensures RowOwned(s, c.catalog, id, 0) && p.column in s.tables.rows[id] && s.tables.rows[id][p.column].Int?
  {
    var cols := c.catalog.DataColumns();
    assert s.arrivals == [e];
    hide LacksRequired, TextsOf, PipelineSound, TailSound, Agrees, InStep, Extends, Knows;
    assert StoredSomewhere(s.tables, s.deleted, s.status[0]);
    id := s.status[0].id;
    var i :| RowOwned(s, c.catalog, id, i);
    TextIsOfEntry(c.catalog, cols, e, p);
    var column :| column in cols && column.name == p.column;
    assert CellFor(e, column.name, s.tables.rows[id][column.name], c.catalog, s.tables.dict);
  }

  /** Where a row decodes, its text either survives a restart or the row is lost by one. */
  lemma SurvivesIfKept(s: State, cat: Catalog, id: int, i: int, p: ColumnText)
    requires RowOwned(s, cat, id, i) && p in TextsOf(cat, cat.DataColumns(), s.arrivals[i])
    requires p.column in s.tables.rows[id] && s.tables.rows[id][p.column].Int?
    ensures var r := DictRow(p.column, p.text, s.tables.rows[id][p.column].n);
            && (AllDecode(s, cat) ==> Holds(s.lookup, r))
            && (TextsSurvive(s, cat) ==> Survives(s.lookup, s.tables.dict, cat, r))
  {
    TextIsOfEntry(cat, cat.DataColumns(), s.arrivals[i], p);
    hide Holds, Survives, RowOwned, TextsOf, StoredText;
    if AllDecode(s, cat) {
      assert RowDecodes(s.arrivals[i], s.tables.rows[id], cat, s.lookup);
    }
    if TextsSurvive(s, cat) {
      assert RowSurvives(s.arrivals[i], s.tables.rows[id], cat, s.lookup, s.tables.dict);
    }
  }

  lemma RestartLosesText(events: seq<Event>, c: Config)
    requires c.backlogMax >= 1 && !TextsSurvive(Run(events, c), c.catalog)
    ensures !AlwaysDecodes(events + [Restart], c)
  {
    var more := events + [Restart];
    AlwaysDecodesExactlyWhen(more, c);
    assert more[|events|] == Restart && more[..|events|] == events;
    hide Run, TextsSurvive, AlwaysDecodes;
  }

  lemma DecodesWithoutRestart(events: seq<Event>, c: Config)
    requires c.backlogMax >= 1 && Restart !in events
    ensures AllDecode(Run(events, c), c.catalog)
  {
    hide Run, AllDecode;
    DecodesUpTo(events, c, |events|);
    assert events[..|events|] == events;
  }

  /** The first entry of a run: taken in, with its row and the id of its text. */
  lemma FirstIntake(c: Config, e: LogEntry, p: ColumnText) returns (s: State, id: int)
    requires c.backlogMax >= 1 && p in TextsOf(c.catalog, c.catalog.DataColumns(), e)
    requires !LacksRequired(e, c.catalog.DataColumns())
    ensures s == Run(Intake(Start(c), c, e), c) && TakenIn(Start(c), s, c, e)
    ensures RowOwned(s, c.catalog, id, 0) && p.column in s.tables.rows[id] && s.tables.rows[id][p.column].Int?
    ensures s.arrivals == [e] && Holds(s.lookup, DictRow(p.column, p.text, s.tables.rows[id][p.column].n))
    ensures s.flush.Publishing? && s.queue.items == []
  {
    var events := Intake(Start(c), c, e);
    assert [] + events == events && c.catalog.DataColumns() != [];
    hide Run, TextsOf, LacksRequired, Granted, AllDecode, Sound, Holds, RowOwned, Extends, Catalog.DataColumns, TakenIn;
    RunOfNone(c);
    s := Run(events, c);
    IntakeRuns([], Start(c), c, e);
    TakenInFirst(s, c, e);
    EveryRunIsSound(events, c);
    id := FirstRow(s, c, e, p);
    DecodesWithoutRestart(events, c);
    SurvivesIfKept(s, c.catalog, id, 0, p);
  }

  lemma TakenInFirst(s: State, c: Config, e: LogEntry)
    requires TakenIn(Start(c), s, c, e)
    ensures s.arrivals == [e] && s.flush.Publishing? && s.queue.items == []
  {
    hide Knows, TextsOf, LacksRequired, Extends, RowOwned;
  }

  lemma ShadowedRowIsLost(s: State, after: State, c: Config, e: LogEntry, id: int, p: ColumnText, q: ColumnText)
    requires TakenIn(s, after, c, e) && Sound(after, c) && !Knows(s.lookup, q)
    requires q in TextsOf(c.catalog, c.catalog.DataColumns(), e) && q.column == p.column
    requires c.catalog.Kept(q.text) == p.text
    requires RowOwned(s, c.catalog, id, 0) && p in TextsOf(c.catalog, c.catalog.DataColumns(), s.arrivals[0])
    requires p.column in s.tables.rows[id] && s.tables.rows[id][p.column].Int?
    requires Holds(s.lookup, DictRow(p.column, p.text, s.tables.rows[id][p.column].n))
    ensures !TextsSurvive(after, c.catalog)
  {
    ShadowIsNewer(s, after, c, e, DictRow(p.column, p.text, s.tables.rows[id][p.column].n), q);
    hide TextsOf, Sound, Holds, Survives, Extends, LacksRequired, TextsSurvive, AllDecode, RowFor;
    assert RowOwned(after, c.catalog, id, 0) && after.arrivals[0] == s.arrivals[0];
    SurvivesIfKept(after, c.catalog, id, 0, p);
  }

  /** A text the table does not give back whole is lost by the next restart. */
  lemma CutTextIsLost(c: Config, ok: LogEntry -> bool, e: LogEntry, p: ColumnText)
    requires c.backlogMax >= 1 && p in TextsOf(c.catalog, c.catalog.DataColumns(), e) && ok(e)
    requires !LacksRequired(e, c.catalog.DataColumns()) && c.catalog.Kept(p.text) != p.text
    ensures exists events :: HandsIn(events, ok) && !AlwaysDecodes(events, c)
  {
    hide Run, TextsOf, LacksRequired, Granted, TextsSurvive, AlwaysDecodes, Holds, Catalog.Kept;
    var s, id := FirstIntake(c, e, p);
    SurvivesIfKept(s, c.catalog, id, 0, p);
    var events := Intake(Start(c), c, e);
    RestartLosesText(events, c);
    assert HandsIn(events + [Restart], ok);
  }

  lemma PublishedIsIdle(s: State, c: Config)
    requires s.flush.Publishing? && s.queue.items == [] && c.backlogMax >= 1
    ensures Step(s, Publish, c) == s.(lastId := s.flush.maxId, flush := Polling) && Idle(Step(s, Publish, c))
  {
  }

  /** The first entry of a run brings one text to a column. */
  lemma OtherTextIsUnknown(s: State, c: Config, e: LogEntry, p: ColumnText, q: ColumnText)
    requires TakenIn(Start(c), s, c, e) && p in TextsOf(c.catalog, c.catalog.DataColumns(), e)
    requires q.column == p.column && q.text != p.text
    ensures !Knows(s.lookup, q)
  {
    TextIsOfEntry(c.catalog, c.catalog.DataColumns(), e, p);
    if q in TextsOf(c.catalog, c.catalog.DataColumns(), e) {
      TextIsOfEntry(c.catalog, c.catalog.DataColumns(), e, q);
    }
    hide TextsOf, StoredText, LacksRequired, Extends, RowOwned;
  }

  lemma ShadowIsNewer(s: State, after: State, c: Config, e: LogEntry, r: DictRow, q: ColumnText)
    requires TakenIn(s, after, c, e) && Sound(after, c) && Holds(s.lookup, r) && !Knows(s.lookup, q)
    requires q in TextsOf(c.catalog, c.catalog.DataColumns(), e) && q.column == r.column
    requires c.catalog.Kept(q.text) == r.value
    ensures !Survives(after.lookup, after.tables.dict, c.catalog, r)
  {
    hide TextsOf, Sound, Catalog.Kept, LacksRequired, RowOwned;
    assert InStep(after.lookup, after.tables.dict, c.catalog) by { PublishingIsInStep(after, c); }
    assert Knows(after.lookup, q) && Extends(s.lookup, after.lookup);
    LearntIsNewer(s.lookup, after.lookup, after.tables.dict, c.catalog, r, q);
  }

  lemma PublishingIsInStep(s: State, c: Config)
    requires Sound(s, c) && s.flush.Publishing?
    ensures InStep(s.lookup, s.tables.dict, c.catalog)
  {
    hide PipelineSound, TailSound, InStep, Agrees, RowOwned;
  }

  lemma LearntIsNewer(lookup: Lookup, more: Lookup, dict: seq<DictRow>, cat: Catalog, r: DictRow, q: ColumnText)
    requires Extends(lookup, more) && InStep(more, dict, cat) && Holds(lookup, r)
    requires Knows(more, q) && !Knows(lookup, q) && q.column == r.column && cat.Kept(q.text) == r.value
    ensures !Survives(more, dict, cat, r)
  {
    hide Extends, InStep, Catalog.Kept, Persisted, Survives;
    var x := DictRow(q.column, q.text, more[q.column][q.text]);
    InStepPersists(more, dict, cat, x);
    ExtendsAbove(lookup, more, r, x);
    NewerTakesOver(more, dict, cat, r, x);
  }

  lemma InStepPersists(lookup: Lookup, dict: seq<DictRow>, cat: Catalog, x: DictRow)
    requires InStep(lookup, dict, cat) && Holds(lookup, x)
    ensures Persisted(lookup, dict, cat, x)
  {
    hide Agrees, Holds, Persisted;
  }

  lemma ExtendsAbove(lookup: Lookup, more: Lookup, r: DictRow, x: DictRow)
    requires Extends(lookup, more) && Holds(lookup, r) && Holds(more, x) && !Holds(lookup, x) && x.column == r.column
    ensures r.id < x.id
  {
    hide Holds;
  }

  lemma NewerTakesOver(lookup: Lookup, dict: seq<DictRow>, cat: Catalog, r: DictRow, x: DictRow)
    requires Persisted(lookup, dict, cat, x) && x.column == r.column && cat.Kept(x.value) == r.value && r.id < x.id
    ensures !Survives(lookup, dict, cat, r)
  {
    hide Persisted, Catalog.Kept;
  }

  /** A further entry: published first, then taken in like any other. */
  lemma NextIntake(first: seq<Event>, s: State, c: Config, e: LogEntry, ok: LogEntry -> bool)
    returns (events: seq<Event>, idle: State)
    requires c.backlogMax >= 1 && Run(first, c) == s && s.flush.Publishing? && s.queue.items == []
    requires c.catalog.DataColumns() != [] && HandsIn(first, ok) && ok(e)
    ensures idle == s.(lastId := s.flush.maxId, flush := Polling)
    ensures HandsIn(events, ok) && TakenIn(idle, Run(events, c), c, e) && Sound(Run(events, c), c)
  {
    hide Run, Granted, TakenIn, Sound;
    RunOne(c, first, Publish, s);
    PublishedIsIdle(s, c);
    idle := Step(s, Publish, c);
    events := first + [Publish] + Intake(idle, c, e);
    IntakeRuns(first + [Publish], idle, c, e);
    EveryRunIsSound(events, c);
  }

  /** A text given back as one stored before it takes its place at the next restart. */
  lemma ShadowedTextIsLost(c: Config, ok: LogEntry -> bool, e: LogEntry, p: ColumnText, e2: LogEntry, q: ColumnText)
    returns (events: seq<Event>)
    requires c.backlogMax >= 1 && p in TextsOf(c.catalog, c.catalog.DataColumns(), e) && ok(e)
    requires !LacksRequired(e, c.catalog.DataColumns()) && ok(e2)
    requires q in TextsOf(c.catalog, c.catalog.DataColumns(), e2) && q.column == p.column && q.text != p.text
    requires c.catalog.Kept(q.text) == p.text
    ensures HandsIn(events, ok) && !AlwaysDecodes(events, c)
  {
    assert c.catalog.DataColumns() != [];
    hide Run, TextsOf, LacksRequired, Granted, TextsSurvive, AlwaysDecodes, Holds, Catalog.Kept, RowOwned, RowFor;
    hide Catalog.DataColumns, Sound, TakenIn, HandsIn, Knows;
    var s, id := FirstIntake(c, e, p);
    OtherTextIsUnknown(s, c, e, p, q);
    IntakeHandsIn(Start(c), c, e, ok);
    var first, idle := NextIntake(Intake(Start(c), c, e), s, c, e2, ok);
    SameTablesSameOwner(s, idle, c.catalog, id, 0);
    var after := Run(first, c);
    ShadowedRowIsLost(idle, after, c, e2, id, p, q);
    RestartLosesText(first, c);
    events := first + [Restart];
    RestartHandsInNothing(first, ok);
  }

  lemma IntakeHandsIn(s: State, c: Config, e: LogEntry, ok: LogEntry -> bool)
    requires ok(e)
    ensures HandsIn(Intake(s, c, e), ok)
  {
  }

  lemma SameTablesSameOwner(s: State, after: State, cat: Catalog, id: int, i: int)
    requires RowOwned(s, cat, id, i) && after.tables == s.tables && after.status == s.status
    requires after.arrivals == s.arrivals
    ensures RowOwned(after, cat, id, i)
  {
  }

  lemma RestartHandsInNothing(events: seq<Event>, ok: LogEntry -> bool)
    requires HandsIn(events, ok)
    ensures HandsIn(events + [Restart], ok)
  {
  }

  // ── The condition ──────────────────────────────────────────────────────────

  lemma NotApartIsLost(c: Config, ok: LogEntry -> bool)
    requires c.backlogMax >= 1 && !KeepsApart(ok, c.catalog)
    ensures exists events :: HandsIn(events, ok) && !AlwaysDecodes(events, c)
  {
    hide TextsOf, LacksRequired, AlwaysDecodes, HandsIn, Catalog.Kept;
    var cols := c.catalog.DataColumns();
    if p :| Storable(ok, c.catalog, p) && c.catalog.Kept(p.text) != p.text {
      var e: LogEntry :| ok(e) && !LacksRequired(e, cols) && p in TextsOf(c.catalog, cols, e);
      CutTextIsLost(c, ok, e, p);
    } else {
      var p, q :| Storable(ok, c.catalog, p) && Brought(ok, c.catalog, q) && q.column == p.column
        && c.catalog.Kept(q.text) == p.text && q.text != p.text;
      var e: LogEntry :| ok(e) && !LacksRequired(e, cols) && p in TextsOf(c.catalog, cols, e);
      var e2: LogEntry :| ok(e2) && q in TextsOf(c.catalog, cols, e2);
      var events := ShadowedTextIsLost(c, ok, e, p, e2, q);
    }
  }

  /** Whatever producers hand in of the entries they may, and whatever else happens, every row always decodes: if and
      only if the dictionary table gives every text that can be stored back whole, without a NUL and as its affinity
      leaves it, and gives no other text its entries bring to the same column back as that one. */
  lemma TextsOutliveRestartsExactlyWhen(c: Config, ok: LogEntry -> bool)
    requires c.backlogMax >= 1
    ensures (forall events :: HandsIn(events, ok) ==> AlwaysDecodes(events, c)) <==> KeepsApart(ok, c.catalog)
  {
    hide Storable, Brought, HandsIn, KeepsApart;
    if KeepsApart(ok, c.catalog) {
      forall events | HandsIn(events, ok) ensures AlwaysDecodes(events, c) {
        forall k | 0 <= k <= |events| ensures AllDecode(Run(events[..k], c), c.catalog) {
          ApartUpTo(events, c, ok, k);
          hide Run, AllDecode;
        }
      }
    } else {
      NotApartIsLost(c, ok);
    }
  }
}
