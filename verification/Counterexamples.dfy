/** Concrete runs in which a guarantee that needs a condition fails without it. */
module Counterexamples {
  import opened Results
  import opened LogTable
  import opened Backlogs
  import opened Dictionary
  import W = Writer
  import opened LiveTail
  import opened Service
  import opened Runs
  import opened TailRuns

  const NO_FAULTS := W.Faults(false, {}, 100, 100, false)
  const ENTRY: LogEntry := map["level" := JText("INFO")]

  /** A log table with one data column and a plain integer key. */
  function PlainKey(compressed: set<string>): Catalog {
    Catalog([Column("id", true, true), Column("level", true, false)], compressed, "level", false,
            Unchanged)
  }

  lemma DataColumnsOf(compressed: set<string>)
    ensures PlainKey(compressed).DataColumns() == [Column("level", true, false)]
  {
    var cols := [Column("id", true, true), Column("level", true, false)];
    assert cols[..1] == [Column("id", true, true)] && cols[..1][..0] == [];
    assert NonKeys(cols[..1]) == [];
  }

  lemma InsertOneEntry(t: Tables, lookup: Lookup, cat: Catalog, faults: W.Faults)
    requires cat.DataColumns() == [Column("level", true, false)]
    requires !faults.beginFails && faults.throwsAt > 0 && 0 !in faults.rejects
    ensures var cols := [Column("level", true, false)];
            var b := W.InsertEntries(W.Begun(t, lookup, faults), cat, cols, [ENTRY], faults);
            b == W.InsertEntry(W.Begun(t, lookup, faults), cat, cols, ENTRY, faults)
    ensures W.EncodeRow(Tx(lookup, t.dict, faults.persistBudget), cat, [Column("level", true, false)], ENTRY)
         == W.EncodeColumn(Tx(lookup, t.dict, faults.persistBudget), map[], cat, Column("level", true, false), ENTRY)
  {
    assert [ENTRY][..0] == [];
    assert [Column("level", true, false)][..0] == [];
  }

  /** On an emptied table a plain key starts again at 1. */
  lemma PlainKeyStartsAgain(t: Tables)
    requires t.rows == map[]
    ensures W.InsertBatch(t, map[], PlainKey({}), [ENTRY], NO_FAULTS)
         == W.Committed(Tables(map[1 := map["level" := Text("INFO")]], if t.sequence < 1 then 1 else t.sequence,
               t.dict),
                        map[], [W.Inserted(1)])
  {
    DataColumnsOf({});
    InsertOneEntry(t, map[], PlainKey({}), NO_FAULTS);
    assert t.rows.Keys == {};
    assert [] + [W.Inserted(1)] == [W.Inserted(1)];
  }

  const CONFIG := Config(PlainKey({}), 10, 10)

  const ROW: Row := map["level" := Text("INFO")]

  /** One producer entry goes all the way to the table. */
  lemma EntryIsStored(events: seq<Event>, s: State) returns (after: State)
    requires Run(events, CONFIG) == s && s.tables.rows == map[] && s.lookup == map[]
    requires s.queue == Empty() && s.flush == Polling && |s.status| == |s.arrivals|
    ensures Run(events + [AddEntry(ENTRY)] + [Drain] + [InsertJob(NO_FAULTS, false)], CONFIG) == after
    ensures after == s.(tables := Tables(map[1 := ROW], if s.tables.sequence < 1 then 1 else s.tables.sequence,
          s.tables.dict),
                        flush := Publishing(1), arrivals := s.arrivals + [ENTRY], status := s.status + [Stored(1)])
  {
    var n := |s.status|;
    hide Run, Step;
    RunOne(CONFIG, events, AddEntry(ENTRY), s);
    var s1 := s.(queue := Queue([n], false), arrivals := s.arrivals + [ENTRY], status := s.status + [Queued]);
    EntryIsQueued(s, ENTRY, CONFIG);
    RunOne(CONFIG, events + [AddEntry(ENTRY)], Drain, s1);
    var s2 := s1.(queue := Empty(), flush := Holding([n]), status := s.status + [Held]);
    QueueIsDrained(s1, s.status, CONFIG);
    RunOne(CONFIG, events + [AddEntry(ENTRY)] + [Drain], InsertJob(NO_FAULTS, false), s2);
    BatchIsStored(s2, s.arrivals, s.status, n);
    after := Step(s2, InsertJob(NO_FAULTS, false), CONFIG);
  }

  lemma BatchIsStored(s: State, arrivals: seq<LogEntry>, status: seq<Status>, n: nat)
    requires s.flush == Holding([n]) && n == |status| == |arrivals| && s.status == status + [Held]
    requires s.arrivals == arrivals + [ENTRY] && s.tables.rows == map[] && s.lookup == map[]
    ensures Step(s, InsertJob(NO_FAULTS, false), CONFIG)
         == s.(tables := Tables(map[1 := ROW], if s.tables.sequence < 1 then 1 else s.tables.sequence, s.tables.dict),
               flush := Publishing(1), status := status + [Stored(1)])
  {
    PlainKeyStartsAgain(s.tables);
    hide W.InsertBatch;
    assert EntriesOf(s.arrivals, [n]) == [ENTRY];
    MarkLast(status, Held, Stored(1));
    assert StatusesOf([W.Inserted(1)]) == [Stored(1)];
    hide Mark, EntriesOf, StatusesOf;
    var rows: map<int, Row> := map[1 := ROW];
    assert 1 in rows.Keys && rows.Keys == {1};
    assert MaxLogId(rows) == 1;
  }

  /** The run of the quick-start schema in which a live tail silently misses an entry: the session has read
      past id 1, vacuum empties the table, and the next entry gets id 1 again. */
  lemma PlainKeyCanLoseALiveEntry()
    ensures exists events :: !AlwaysComplete(events, CONFIG)
  {
    var e0 := [Subscribe];
    assert Run([], CONFIG) == Start(CONFIG);
    RunOne(CONFIG, [], Subscribe, Start(CONFIG));
    assert [] + [Subscribe] == e0;
    var s0 := Step(Start(CONFIG), Subscribe, CONFIG);
    hide Run, Step;
    assert s0 == Start(CONFIG).(sessions := [Opened(0, [])]) by { SubscribeStep(Start(CONFIG)); }
    var s1 := EntryIsStored(e0, s0);
    var e1 := e0 + [AddEntry(ENTRY)] + [Drain] + [InsertJob(NO_FAULTS, false)];
    var s2 := ReadPastTheOnlyRow(e1, s1);
    var e2 := e1 + [Publish] + [Wake(0, false)] + [DeleteJob({1})] + [Count(0)];
    SecondEntryIsMissed(e2, s2);
  }

  lemma SubscribeStep(s: State)
    ensures Step(s, Subscribe, CONFIG) == s.(sessions := s.sessions + [Opened(s.lastId, s.status)])
  {
  }

  lemma PublishStep(s: State)
    requires s.flush == Publishing(1)
    ensures Step(s, Publish, CONFIG) == s.(lastId := 1, flush := Polling)
  {
  }

  lemma DeleteStep(s: State)
    requires s.tables.rows == map[1 := ROW]
    ensures Step(s, DeleteJob({1}), CONFIG)
         == s.(tables := s.tables.(rows := map[]), deleted := Step(s, DeleteJob({1}), CONFIG).deleted)
  {
    assert s.tables.rows - {1} == map[];
  }

  lemma ReadPastTheOnlyRow(events: seq<Event>, s: State) returns (after: State)
    requires Run(events, CONFIG) == s && s.flush == Publishing(1) && s.tables.rows == map[1 := ROW]
    requires s.sessions == [Opened(0, [])]
    ensures Run(events + [Publish] + [Wake(0, false)] + [DeleteJob({1})] + [Count(0)], CONFIG) == after
    ensures after.sessions == [Advanced(Opened(0, []), Window(0, 1, {}, [], s.status))]
    ensures after.tables == s.tables.(rows := map[]) && after.flush == Polling && after.status == s.status
    ensures after.queue == s.queue && after.lookup == s.lookup && after.arrivals == s.arrivals
  {
    hide Run;
    RunOne(CONFIG, events, Publish, s);
    var s1 := Step(s, Publish, CONFIG);
    RunOne(CONFIG, events + [Publish], Wake(0, false), s1);
    var s2 := Step(s1, Wake(0, false), CONFIG);
    assert s2.sessions == [Opened(0, []).(phase := Counting(1))];
    RunOne(CONFIG, events + [Publish] + [Wake(0, false)], DeleteJob({1}), s2);
    var s3 := Step(s2, DeleteJob({1}), CONFIG);
    DeleteStep(s2);
    RunOne(CONFIG, events + [Publish] + [Wake(0, false)] + [DeleteJob({1})], Count(0), s3);
    after := Step(s3, Count(0), CONFIG);
    assert Visible(s3.tables.rows, 0, 1) == {};
  }

  lemma SecondEntryIsMissed(events: seq<Event>, s: State)
    requires Run(events, CONFIG) == s && s.tables.rows == map[] && s.lookup == map[] && s.queue == Empty()
    requires s.flush == Polling && |s.status| == |s.arrivals|
    requires |s.sessions| == 1 && s.sessions[0] == Advanced(Opened(0, []), Window(0, 1, {}, [], s.status))
    ensures exists more :: !AlwaysComplete(more, CONFIG)
  {
    var more := events + [AddEntry(ENTRY)] + [Drain] + [InsertJob(NO_FAULTS, false)];
    var after := EntryIsStored(events, s);
    hide Run;
    var x, i := after.sessions[0], |s.status|;
    assert Owed(x, after.status, i) && ReadWindows(x) == [Window(0, 1, {}, [], s.status)];
    assert !TailRuns.Accounted(x, i, after.status[i].id, after.deleted, 10);
    assert !SessionComplete(x, after.status, after.deleted, 10);
    assert !AlwaysComplete(more, CONFIG);
  }

  /** A session opened on a table with one row: vacuum removes the row, the next entry gets its id again, and
      even once that is published the session has nothing to read and never sends the entry. */
  lemma PlainKeyCanLoseAnEntryBelowTheStart()
    ensures exists events :: var s := Run(events, CONFIG);
      && s.sessions == [Opened(1, [Stored(1)])] && s.flush == Polling && s.lastId == 1
      && s.status == [Stored(1), Stored(1)] && s.tables.rows == map[1 := ROW] && !TailComplete(s, CONFIG)
  {
    var s0 := Start(CONFIG);
    assert Run([], CONFIG) == s0;
    hide Run, Step;
    var s1 := EntryIsStored([], s0);
    var e1 := [] + [AddEntry(ENTRY)] + [Drain] + [InsertJob(NO_FAULTS, false)];
    RunOne(CONFIG, e1, Publish, s1);
    PublishStep(s1);
    var s2 := s1.(lastId := 1, flush := Polling);
    assert s2.status == [Stored(1)] && s2.sessions + [Opened(1, s2.status)] == [Opened(1, [Stored(1)])];
    RunOne(CONFIG, e1 + [Publish], Subscribe, s2);
    SubscribeStep(s2);
    var s3 := s2.(sessions := s2.sessions + [Opened(1, s2.status)]);
    RunOne(CONFIG, e1 + [Publish] + [Subscribe], DeleteJob({1}), s3);
    DeleteStep(s3);
    var s4 := Step(s3, DeleteJob({1}), CONFIG);
    var e4 := e1 + [Publish] + [Subscribe] + [DeleteJob({1})];
    var s5 := EntryIsStored(e4, s4);
    assert s5.status == [Stored(1), Stored(1)];
    NothingIsRead(e4 + [AddEntry(ENTRY)] + [Drain] + [InsertJob(NO_FAULTS, false)], s5);
  }

  lemma NothingIsRead(events: seq<Event>, s: State)
    requires Run(events, CONFIG) == s && s.flush == Publishing(1) && s.tables.rows == map[1 := ROW]
    requires s.sessions == [Opened(1, [Stored(1)])] && s.status == [Stored(1), Stored(1)]
    ensures exists more :: var after := Run(more, CONFIG);
      && after.sessions == s.sessions && after.flush == Polling && after.lastId == 1
      && after.status == s.status && after.tables.rows == s.tables.rows && !TailComplete(after, CONFIG)
  {
    hide Run;
    RunOne(CONFIG, events, Publish, s);
    var s1 := Step(s, Publish, CONFIG);
    RunOne(CONFIG, events + [Publish], Wake(0, false), s1);
    var after := Step(s1, Wake(0, false), CONFIG);
    var x := after.sessions[0];
    assert after.sessions == s.sessions;
    assert Owed(x, after.status, 1) && ReadWindows(x) == [];
    assert !SessionComplete(x, after.status, after.deleted, 10);
    assert !TailComplete(after, CONFIG);
    assert Run(events + [Publish] + [Wake(0, false)], CONFIG) == after;
  }

  lemma FirstInsertAborts()
    ensures var first := W.InsertBatch(Tables(map[], 0, []), map[], PlainKey({"level"}), [ENTRY],
                                       NO_FAULTS.(commitFails := true));
            first == W.Aborted(map["level" := map["INFO" := 1]])
  {
    var cat, t := PlainKey({"level"}), Tables(map[], 0, []);
    DataColumnsOf({"level"});
    hide NextValueId, Catalog.Kept;
    InsertOneEntry(t, map[], cat, NO_FAULTS.(commitFails := true));
    assert NextValueId(map[]) == 1 by { FirstValueId(); }
  }

  lemma FirstValueId()
    ensures NextValueId(map[]) == 1
  {
  }

  lemma SecondInsertCommits()
    ensures var second := W.InsertBatch(Tables(map[], 0, []), map["level" := map["INFO" := 1]], PlainKey({"level"}),
                                        [ENTRY], NO_FAULTS);
            && second.Committed? && second.tables.dict == [] && 1 in second.tables.rows
            && second.tables.rows[1] == map["level" := Int(1)]
  {
    var cat, t := PlainKey({"level"}), Tables(map[], 0, []);
    DataColumnsOf({"level"});
    hide NextValueId, Catalog.Kept;
    var lookup: Lookup := map["level" := map["INFO" := 1]];
    InsertOneEntry(t, lookup, cat, NO_FAULTS);
    assert t.rows.Keys == {};
  }

  /** Why a failed Insert must end the task that inserts: memory keeps the id of a rolled-back entry, so a
      further Insert would commit a row whose id no restart can decode. */
  lemma InsertingAfterAnAbortLosesText()
    ensures var cat, t := PlainKey({"level"}), Tables(map[], 0, []);
            var first := W.InsertBatch(t, map[], cat, [ENTRY], NO_FAULTS.(commitFails := true));
            && first.Aborted?
            && var second := W.InsertBatch(t, first.lookup, cat, [ENTRY], NO_FAULTS);
               && second.Committed? && 1 in second.tables.rows
               && second.tables.rows[1] == map["level" := Int(1)]
               && forall v :: !Holds(Load(second.tables.dict), DictRow("level", v, 1))
  {
    hide W.InsertBatch, PlainKey;
    FirstInsertAborts();
    SecondInsertCommits();
  }

  // ── Texts a restart loses ──────────────────────────────────────────────────

  /** SQLite's NUMERIC affinity on one text that looks like a number. */
  function LeadingZeros(text: string): string { if text == "007" then "7" else text }

  lemma FirstIds(cat: Catalog, column: string, first: string, second: string)
    requires first != second
    ensures var one := Assign(Tx(map[], [], 2), column, first, cat.Kept(first)).tx;
            && one.dict == [DictRow(column, cat.Kept(first), 1)] && one.lookup == map[column := map[first := 1]]
            && var two := Assign(one, column, second, cat.Kept(second)).tx;
               two.dict == [DictRow(column, cat.Kept(first), 1), DictRow(column, cat.Kept(second), 2)]
  {
    hide Catalog.Kept;
    var known: map<string, int> := map[first := 1];
    assert first in known.Keys && known[first] in known.Values;
    assert NextValueId(known) == 2;
  }

  lemma LoadOne(r: DictRow)
    ensures Load([r]) == map[r.column := map[r.value := r.id]]
  {
    assert [r][..0] == [];
    assert Load([]) == map[];
  }

  lemma LoadTwo(r: DictRow, q: DictRow)
    requires q.column == r.column && q.value == r.value
    ensures Load([r, q]) == map[q.column := map[q.value := q.id]]
  {
    LoadOne(r);
    assert [r, q][..1] == [r];
    assert map[r.value := r.id][q.value := q.id] == map[q.value := q.id];
  }

  lemma KeptOf()
    ensures PlainKey({"level"}).Kept("a\0b") == "a" && PlainKey({"level"}).Kept("a") == "a"
    ensures var number := PlainKey({"level"}).(affinity := LeadingZeros);
            number.Kept("007") == "7" && number.Kept("7") == "7"
  {
    assert "a\0b"[1..] == ['\0', 'b'];
    assert UpToNul(['\0', 'b']) == "";
    assert "a"[1..] == "" && "007"[1..] == "07" && "07"[1..] == "7" && "7"[1..] == "";
    assert UpToNul("7") == "7" && UpToNul("07") == "07" && UpToNul("007") == "007";
  }

  /** A text given back as another: after a restart its id is that of the other. With the other numbered too, its id
      is that of no text. */
  lemma TextTakesOver(cat: Catalog, column: string, first: string, second: string)
    requires cat.Kept(first) == second && cat.Kept(second) == second && first != second
    ensures var one := Assign(Tx(map[], [], 2), column, first, cat.Kept(first)).tx;
            var two := Assign(one, column, second, cat.Kept(second)).tx;
            && Holds(one.lookup, DictRow(column, first, 1))
            && (forall v :: Holds(Load(one.dict), DictRow(column, v, 1)) <==> v == second)
            && (forall v :: !Holds(Load(two.dict), DictRow(column, v, 1)))
  {
    FirstIds(cat, column, first, second);
    hide Load, Assign, Catalog.Kept;
    LoadOne(DictRow(column, second, 1));
    LoadTwo(DictRow(column, second, 1), DictRow(column, second, 2));
  }

  /** So with a text that goes on after a NUL, and with one that looks like a number. */
  lemma TextsAreLost()
    ensures var cat, text := PlainKey({"level"}), "a\0b";
            cat.Kept(text) == "a" && forall v ::
              Holds(Load(Assign(Tx(map[], [], 2), "level", text, cat.Kept(text)).tx.dict), DictRow("level", v, 1))
              <==> v == "a"
    ensures var cat, text := PlainKey({"level"}).(affinity := LeadingZeros), "007";
            cat.Kept(text) == "7" && forall v ::
              Holds(Load(Assign(Tx(map[], [], 2), "level", text, cat.Kept(text)).tx.dict), DictRow("level", v, 1))
              <==> v == "7"
  {
    KeptOf();
    var cut, number := PlainKey({"level"}), PlainKey({"level"}).(affinity := LeadingZeros);
    hide PlainKey, Catalog.Kept, Assign, Load, Holds;
    TextTakesOver(cut, "level", "a\0b", "a");
    TextTakesOver(number, "level", "007", "7");
  }
}
