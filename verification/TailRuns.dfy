/** What live tails are sent: nothing twice, and everything exactly when no id is reused under a session. */
module TailRuns {
  import opened Results
  import opened IdSets
  import opened Sequences
  import opened LogTable
  import opened Backlogs
  import opened Dictionary
  import W = Writer
  import opened Storage
  import opened Queries
  import opened LiveTail
  import opened Service
  import opened Accounting
  import opened Runs

  // ── Nothing twice, nothing back ────────────────────────────────────────────

  /** No row id is sent twice to one session, whatever is inserted, deleted or published meanwhile. */
  lemma NothingIsSentTwice(events: seq<Event>, c: Config, k: nat, m: nat, n: nat, i: nat, j: nat)
    requires c.backlogMax >= 1 && k < |Run(events, c).sessions|
    requires var ws := Run(events, c).sessions[k].windows;
             m < |ws| && n < |ws| && i < |ws[m].sent| && j < |ws[n].sent|
    ensures var ws := Run(events, c).sessions[k].windows;
            ws[m].sent[i] == ws[n].sent[j] ==> m == n && i == j
  {
    EveryRunIsSound(events, c);
    var x := Run(events, c).sessions[k];
    assert SessionInvariant(x, Run(events, c), c);
    assert WindowSound(x.windows[m], c.sseLimit) && WindowSound(x.windows[n], c.sseLimit);
    if m < n {
      ChainOrdered(x.start, x.windows, x.pushed, m, n);
    } else if n < m {
      ChainOrdered(x.start, x.windows, x.pushed, n, m);
    }
  }

  /** The session kept its cursor, or moved it past one window it has just read. */
  predicate CursorKeptOrAdvanced(x: Session, y: Session, wasRead: bool) {
    && y.start == x.start
    && (y.pushed == x.pushed ==> y.windows == x.windows)
    && (y.pushed != x.pushed ==>
          && wasRead
          && |y.windows| == |x.windows| + 1 && y.windows[..|x.windows|] == x.windows
          && y.windows[|x.windows|].lo == x.pushed < y.windows[|x.windows|].hi == y.pushed)
  }

  lemma SessionStepMovesCursor(s: State, x: Session, e: Event, c: Config)
    requires SessionSound(x, c.sseLimit) && ForSession(e)
    ensures CursorKeptOrAdvanced(x, SessionStep(s, x, e, c), e.Count? || e.Select? || e.FinishWrite?)
  {
    hide Chain, WindowSound, Enumerates, NewestFirst, Visible;
  }

  /** In no step of any run does a cursor move back; it moves only past a window that was read, by that
      session's own count, select or write. A failed query, a debounce skip and every step of others leave it. */
  lemma CursorMovesOnlyPastReadWindows(events: seq<Event>, e: Event, c: Config, k: nat)
    requires c.backlogMax >= 1 && e != Restart && k < |Run(events, c).sessions|
    ensures var s := Run(events, c); var after := Step(s, e, c);
            && k < |after.sessions|
            && CursorKeptOrAdvanced(s.sessions[k], after.sessions[k], ForSession(e) && e.k == k
                  && (e.Count? || e.Select? || e.FinishWrite?))
  {
    EveryRunIsSound(events, c);
    var s := Run(events, c);
    assert SessionInvariant(s.sessions[k], s, c);
    StepSessions(s, e, c, k);
    if ForSession(e) && e.k == k {
      SessionStepMovesCursor(s, s.sessions[k], e, c);
    }
    hide Run, Sound, Step, SessionStep, SessionSound;
  }

  // ── Complete sessions ──────────────────────────────────────────────────────

  /** Entry i, stored under id, was accounted for when window w was read: sent, already vacuumed, or cut by
      the row limit. */
  ghost predicate Delivered(w: Window, i: nat, id: int, deleted: set<int>, limit: int) {
    && w.lo < id <= w.hi
    && i < |w.statuses| && w.statuses[i] == Stored(id)
    && (id in w.sent || (id !in w.visible && id in deleted) || (id in w.visible && |w.sent| == limit < |w.visible|))
  }

  /** How far a session has read. */
  function Reach(x: Session): int {
    if x.phase.Writing? then x.phase.window.hi else x.pushed
  }

  /** Every window the session has read, the one it is writing included. */
  function ReadWindows(x: Session): seq<Window> {
    if x.phase.Writing? then x.windows + [x.phase.window] else x.windows
  }

  /** The session owes its client entry i: stored, under an id the session has read up to, and either above its
      starting point or not yet stored when it opened. */
  predicate Owed(x: Session, status: seq<Status>, i: nat) {
    && i < |status| && status[i].Stored? && status[i].id <= Reach(x)
    && (x.start < status[i].id || !(i < |x.opening| && x.opening[i].Stored?))
  }

  ghost predicate Accounted(x: Session, i: nat, id: int, deleted: set<int>, limit: int) {
    exists m :: 0 <= m < |ReadWindows(x)| && Delivered(ReadWindows(x)[m], i, id, deleted, limit)
  }

  ghost predicate SessionComplete(x: Session, status: seq<Status>, deleted: set<int>, limit: int) {
    forall i: nat :: Owed(x, status, i) ==> Accounted(x, i, status[i].id, deleted, limit)
  }

  /** Every open session accounted for everything it owes. */
  ghost predicate TailComplete(s: State, c: Config) {
    forall k :: 0 <= k < |s.sessions| && s.sessions[k].phase != Closed ==>
      SessionComplete(s.sessions[k], s.status, s.deleted, c.sseLimit)
  }

  ghost predicate NewlyStored(s: State, after: State, i: int) {
    0 <= i < |after.status| && after.status[i].Stored? && !(i < |s.status| && s.status[i].Stored?)
  }

  /** A window read now accounts for everything stored so far. */
  lemma FreshWindowDelivers(s: State, w: Window, c: Config, i: nat)
    requires StorageSound(s, c.catalog) && WindowSound(w, c.sseLimit)
    requires w.visible == Visible(s.tables.rows, w.lo, w.hi) && w.statuses == s.status
    requires i < |s.status| && s.status[i].Stored? && w.lo < s.status[i].id <= w.hi
    ensures Delivered(w, i, s.status[i].id, s.deleted, c.sseLimit)
  {
    assert StoredSomewhere(s.tables, s.deleted, s.status[i]);
  }

  /** Reading one more window keeps a session complete. */
  lemma OneMoreWindowComplete(s: State, x: Session, y: Session, w: Window, c: Config)
    requires StorageSound(s, c.catalog) && SessionComplete(x, s.status, s.deleted, c.sseLimit)
    requires WindowSound(w, c.sseLimit) && w.visible == Visible(s.tables.rows, w.lo, w.hi) && w.statuses == s.status
    requires y.start == x.start && y.opening == x.opening && w.lo == Reach(x) && Reach(y) == w.hi
    requires ReadWindows(y) == ReadWindows(x) + [w]
    ensures SessionComplete(y, s.status, s.deleted, c.sseLimit)
  {
    hide StorageSound, WindowSound;
    forall i: nat | Owed(y, s.status, i) ensures Accounted(y, i, s.status[i].id, s.deleted, c.sseLimit) {
      if s.status[i].id <= w.lo {
        assert Owed(x, s.status, i);
        var m :| 0 <= m < |ReadWindows(x)| && Delivered(ReadWindows(x)[m], i, s.status[i].id, s.deleted, c.sseLimit);
        assert ReadWindows(y)[m] == ReadWindows(x)[m];
      } else {
        FreshWindowDelivers(s, w, c, i);
        assert ReadWindows(y)[|ReadWindows(x)|] == w;
      }
    }
  }

  /** Forgetting a window that was being written, and its ids with it, keeps a session complete. */
  lemma HungUpComplete(s: State, x: Session, c: Config)
    requires SessionInvariant(x, s, c) && SessionComplete(x, s.status, s.deleted, c.sseLimit)
    ensures SessionComplete(HungUp(x), s.status, s.deleted, c.sseLimit)
  {
    var y := HungUp(x);
    forall i: nat | Owed(y, s.status, i) ensures Accounted(y, i, s.status[i].id, s.deleted, c.sseLimit) {
      assert Owed(x, s.status, i);
      var m :| 0 <= m < |ReadWindows(x)| && Delivered(ReadWindows(x)[m], i, s.status[i].id, s.deleted, c.sseLimit);
      assert m < |x.windows|;
      assert ReadWindows(y)[m] == ReadWindows(x)[m];
    }
  }

  lemma SessionStepComplete(s: State, x: Session, e: Event, c: Config)
    requires SessionInvariant(x, s, c) && StorageSound(s, c.catalog) && ForSession(e)
    requires SessionComplete(x, s.status, s.deleted, c.sseLimit)
    ensures SessionComplete(SessionStep(s, x, e, c), s.status, s.deleted, c.sseLimit)
  {
    hide StorageSound, SessionComplete;
    var y := SessionStep(s, x, e, c);
    match e
    case Count(_) =>
      if x.phase.Counting? && Visible(s.tables.rows, x.pushed, x.phase.hi) == {} {
        OneMoreWindowComplete(s, x, y, Window(x.pushed, x.phase.hi, {}, [], s.status), c);
      } else {
        SameReadComplete(s, x, y, c);
      }
    case Select(_, order) =>
      if y != x {
        SelectedSound(x, s.tables.rows, order, c.sseLimit, s.status);
        var w := if y.phase.Writing? then y.phase.window else y.windows[|x.windows|];
        OneMoreWindowComplete(s, x, y, w, c);
      }
    case HangUp(_) => HungUpComplete(s, x, c);
    case _ => SameReadComplete(s, x, y, c);
  }

  lemma SameReadComplete(s: State, x: Session, y: Session, c: Config)
    requires SessionComplete(x, s.status, s.deleted, c.sseLimit)
    requires y.start == x.start && y.opening == x.opening && Reach(y) == Reach(x) && ReadWindows(y) == ReadWindows(x)
    ensures SessionComplete(y, s.status, s.deleted, c.sseLimit)
  {
    forall i: nat | Owed(y, s.status, i) ensures Accounted(y, i, s.status[i].id, s.deleted, c.sseLimit) {
      assert Owed(x, s.status, i);
    }
  }

  /** A session stays complete unless an entry is stored under an id it has already read past. */
  lemma StaysComplete(x: Session, s: State, after: State, c: Config)
    requires SessionComplete(x, s.status, s.deleted, c.sseLimit)
    requires StoredStays(s.status, after.status) && s.deleted <= after.deleted
    requires forall i :: NewlyStored(s, after, i) ==> Reach(x) < after.status[i].id
    ensures SessionComplete(x, after.status, after.deleted, c.sseLimit)
  {
    forall i: nat | Owed(x, after.status, i) ensures Accounted(x, i, after.status[i].id, after.deleted, c.sseLimit) {
      assert !NewlyStored(s, after, i);
      assert Owed(x, s.status, i);
      var m :| 0 <= m < |ReadWindows(x)| && Delivered(ReadWindows(x)[m], i, s.status[i].id, s.deleted, c.sseLimit);
      assert Delivered(ReadWindows(x)[m], i, after.status[i].id, after.deleted, c.sseLimit);
    }
  }

  /** An entry newly stored under an id an open session has read past is owed and never accounted for. */
  lemma PassedEntryIsMissed(x: Session, s: State, after: State, c: Config, i: nat)
    requires SessionInvariant(x, s, c) && NewlyStored(s, after, i) && after.status[i].id <= Reach(x)
    ensures !SessionComplete(x, after.status, after.deleted, c.sseLimit)
  {
    assert Owed(x, after.status, i);
    forall m | 0 <= m < |ReadWindows(x)|
      ensures !Delivered(ReadWindows(x)[m], i, after.status[i].id, after.deleted, c.sseLimit)
    {
      assert WindowPast(ReadWindows(x)[m], s.status);
    }
  }

  /** No step takes back a stored entry. */
  lemma StepKeepsStored(s: State, e: Event, c: Config)
    requires Sound(s, c) && c.backlogMax >= 1
    ensures StoredStays(s.status, Step(s, e, c).status) && s.deleted <= Step(s, e, c).deleted
  {
    match e
    case AddEntry(entry) => AddKeepsPipeline(s, entry, c);
    case Drain => if s.flush == Polling { DrainKeepsPipeline(s, c); }
    case InsertJob(faults, maxIdFails) => if s.flush.Holding? { InsertKeepsStored(s, faults, maxIdFails, c); }
    case Restart => RestartKeepsPipeline(s, c);
    case _ =>
  }

  lemma MarkingHeldKeepsStored(status: seq<Status>, held: seq<nat>, queued: seq<nat>, marks: seq<Status>)
    requires PlacesSound(status, held, queued) && |marks| == |held|
    ensures StoredStays(status, Mark(status, held, marks))
  {
    forall i | 0 <= i < |status| && status[i].Stored? ensures Mark(status, held, marks)[i] == status[i] {
      var k := HeldMark(status, held, queued, marks, i);
    }
    hide Mark, PlacesSound;
  }

  lemma InsertKeepsStored(s: State, faults: W.Faults, maxIdFails: bool, c: Config)
    requires Sound(s, c) && s.flush.Holding?
    ensures StoredStays(s.status, RunInsert(s, faults, maxIdFails, c).status)
  {
    var batch, entries := s.flush.batch, EntriesOf(s.arrivals, s.flush.batch);
    var r := W.InsertBatch(s.tables, s.lookup, c.catalog, entries, faults);
    InsertIsSound(s.tables, s.lookup, c.catalog, entries, faults);
    hide W.InsertBatch, Mark, EntriesOf, MaxLogId, PlacesSound, BatchSound, StoredStays, LacksRequired;
    match r
    case NothingToDo => MarkingHeldKeepsStored(s.status, batch, s.queue.items, Repeat(NoColumns, |batch|));
    case Committed(_, _, fates) => MarkingHeldKeepsStored(s.status, batch, s.queue.items, StatusesOf(fates));
    case Aborted(_) => MarkingHeldKeepsStored(s.status, batch, s.queue.items, Repeat(LostInBatch, |batch|));
  }

  // ── The guard of an insert ─────────────────────────────────────────────────

  ghost function BatchResult(s: State, e: Event, c: Config): W.InsertResult
    requires e.InsertJob? && s.flush.Holding?
  {
    W.InsertBatch(s.tables, s.lookup, c.catalog, EntriesOf(s.arrivals, s.flush.batch), e.faults)
  }

  /** The step is an insert that commits a row. */
  ghost predicate StoresARow(s: State, e: Event, c: Config) {
    e.InsertJob? && s.flush.Holding? && BatchResult(s, e, c).Committed? && FirstId(BatchResult(s, e, c).fates).Some?
  }

  /** Some open session has already read up to the id the next row will get. */
  ghost predicate NextIdIsPast(s: State, c: Config) {
    exists k :: 0 <= k < |s.sessions| && s.sessions[k].phase != Closed
      && W.NextRowId(s.tables.rows, s.tables.sequence, c.catalog.autoincrement) <= Reach(s.sessions[k])
  }

  ghost predicate Outruns(s: State, e: Event, c: Config) {
    StoresARow(s, e, c) && NextIdIsPast(s, c)
  }

  /** Steps that are no insert store nothing. */
  lemma OnlyInsertsStore(s: State, e: Event, c: Config, i: nat)
    requires Sound(s, c) && c.backlogMax >= 1 && NewlyStored(s, Step(s, e, c), i)
    ensures e.InsertJob? && s.flush.Holding?
  {
    match e
    case AddEntry(entry) => AddKeepsPipeline(s, entry, c);
    case Drain => if s.flush == Polling { DrainKeepsPipeline(s, c); }
    case Restart => RestartKeepsPipeline(s, c);
    case _ =>
  }

  lemma NothingNewlyStored(s: State, after: State, mark: Status, i: nat)
    requires s.flush.Holding? && PlacesSound(s.status, s.flush.batch, s.queue.items) && !mark.Stored?
    requires after.status == Mark(s.status, s.flush.batch, Repeat(mark, |s.flush.batch|))
    ensures !NewlyStored(s, after, i)
  {
    hide Mark, PlacesSound;
    if i < |s.status| {
      var k := HeldMark(s.status, s.flush.batch, s.queue.items, Repeat(mark, |s.flush.batch|), i);
    }
  }

  lemma OnlyCommitsStore(s: State, faults: W.Faults, maxIdFails: bool, c: Config, i: nat)
    requires Sound(s, c) && s.flush.Holding? && NewlyStored(s, RunInsert(s, faults, maxIdFails, c), i)
    ensures var r := W.InsertBatch(s.tables, s.lookup, c.catalog, EntriesOf(s.arrivals, s.flush.batch), faults);
            r.Committed? && Commits(s, RunInsert(s, faults, maxIdFails, c), r.fates, c.catalog)
  {
    var after := RunInsert(s, faults, maxIdFails, c);
    var r := W.InsertBatch(s.tables, s.lookup, c.catalog, EntriesOf(s.arrivals, s.flush.batch), faults);
    InsertIsSound(s.tables, s.lookup, c.catalog, EntriesOf(s.arrivals, s.flush.batch), faults);
    hide W.InsertBatch, Mark, EntriesOf, MaxLogId, PlacesSound, InsertSound, NewlyStored;
    match r
    case NothingToDo => NothingNewlyStored(s, after, NoColumns, i);
    case Aborted(_) => NothingNewlyStored(s, after, LostInBatch, i);
    case Committed(_, _, _) =>
  }

  /** What an insert newly stores are the inserted fates of a committed batch. */
  lemma NewlyStoredIsFate(s: State, e: Event, c: Config, i: nat) returns (j: int)
    requires Sound(s, c) && c.backlogMax >= 1 && NewlyStored(s, Step(s, e, c), i)
    ensures e.InsertJob? && s.flush.Holding? && BatchResult(s, e, c).Committed?
    ensures AssignedTo(BatchResult(s, e, c).fates, j, Step(s, e, c).status[i].id)
  {
    OnlyInsertsStore(s, e, c, i);
    var after := Step(s, e, c);
    assert after == RunInsert(s, e.faults, e.maxIdFails, c);
    OnlyCommitsStore(s, e.faults, e.maxIdFails, c, i);
    hide Sound, Step, RunInsert, Commits, W.InsertBatch;
    j := StoredCameFrom(s, after, BatchResult(s, e, c).fates, c.catalog, i);
  }

  /** No new id is below the next one, and a batch that stores anything uses it. */
  lemma NewIdsStartAtNext(s: State, e: Event, c: Config, i: nat)
    requires Sound(s, c) && c.backlogMax >= 1 && NewlyStored(s, Step(s, e, c), i)
    ensures StoresARow(s, e, c)
    ensures W.NextRowId(s.tables.rows, s.tables.sequence, c.catalog.autoincrement) <= Step(s, e, c).status[i].id
  {
    var j := NewlyStoredIsFate(s, e, c, i);
    InsertIsSound(s.tables, s.lookup, c.catalog, EntriesOf(s.arrivals, s.flush.batch), e.faults);
    hide W.InsertBatch, Step, EntriesOf, W.NextRowId, FatesFit, RowsCome, IdsSound, InStep;
    FirstIdIsLeast(BatchResult(s, e, c).fates, j, Step(s, e, c).status[i].id);
  }

  lemma StoredRowGetsNextId(s: State, e: Event, c: Config) returns (i: nat)
    requires Sound(s, c) && c.backlogMax >= 1 && StoresARow(s, e, c)
    ensures NewlyStored(s, Step(s, e, c), i)
    ensures Step(s, e, c).status[i].id == W.NextRowId(s.tables.rows, s.tables.sequence, c.catalog.autoincrement)
  {
    var r, batch := BatchResult(s, e, c), s.flush.batch;
    CommitUsesNextId(s, e, c);
    CommitMarks(s, e, c);
    hide Step, Sound, BatchResult, W.NextRowId, PlacesSound, Mark, StatusesOf, NewlyStored;
    FirstIdIsAssigned(r.fates);
    var j :| AssignedTo(r.fates, j, FirstId(r.fates).value);
    i := batch[j];
    FateIsStored(s, Step(s, e, c), r.fates, j, FirstId(r.fates).value);
  }

  lemma CommitUsesNextId(s: State, e: Event, c: Config)
    requires Sound(s, c) && StoresARow(s, e, c)
    ensures var r := BatchResult(s, e, c);
      && |r.fates| == |s.flush.batch|
      && FirstId(r.fates).value == W.NextRowId(s.tables.rows, s.tables.sequence, c.catalog.autoincrement)
  {
    InsertIsSound(s.tables, s.lookup, c.catalog, EntriesOf(s.arrivals, s.flush.batch), e.faults);
    hide W.InsertBatch, BatchSound, W.NextRowId, PipelineSound, TailSound, FirstId;
  }

  lemma CommitMarks(s: State, e: Event, c: Config)
    requires Sound(s, c) && c.backlogMax >= 1 && StoresARow(s, e, c)
    ensures PlacesSound(s.status, s.flush.batch, s.queue.items)
    ensures Step(s, e, c).status == Mark(s.status, s.flush.batch, StatusesOf(BatchResult(s, e, c).fates))
  {
    hide PlacesSound, Mark, StatusesOf, W.InsertBatch, EntriesOf, TailSound, StorageSound, MaxLogId, FirstId;
  }

  lemma FateIsStored(s: State, after: State, fates: seq<W.Fate>, j: int, id: int)
    requires s.flush.Holding? && PlacesSound(s.status, s.flush.batch, s.queue.items) && |fates| == |s.flush.batch|
    requires after.status == Mark(s.status, s.flush.batch, StatusesOf(fates)) && AssignedTo(fates, j, id)
    ensures NewlyStored(s, after, s.flush.batch[j]) && after.status[s.flush.batch[j]] == Stored(id)
  {
    hide Mark, PlacesSound, StatusesOf;
    HeldMarkAt(s.status, s.flush.batch, s.queue.items, StatusesOf(fates), j);
    assert StatusesOf(fates)[j] == Stored(id);
  }

  lemma StepKeepsSessionComplete(s: State, e: Event, c: Config, k: nat)
    requires Sound(s, c) && c.backlogMax >= 1 && e != Restart && k < |s.sessions|
    requires SessionComplete(s.sessions[k], s.status, s.deleted, c.sseLimit)
    requires forall i :: NewlyStored(s, Step(s, e, c), i) ==> Reach(s.sessions[k]) < Step(s, e, c).status[i].id
    ensures var after := Step(s, e, c);
            k < |after.sessions| && SessionComplete(after.sessions[k], after.status, after.deleted, c.sseLimit)
  {
    StepKeepsStored(s, e, c);
    StepSessions(s, e, c, k);
    var x, after := s.sessions[k], Step(s, e, c);
    assert SessionInvariant(x, s, c);
    hide SessionComplete, StorageSound, SessionInvariant, StoredStays, PipelineSound, NewlyStored;
    if ForSession(e) && e.k == k {
      SessionStepComplete(s, x, e, c);
      assert after.status == s.status && after.deleted == s.deleted;
    } else {
      hide Step;
      StaysComplete(x, s, after, c);
    }
  }

  lemma StepKeepsComplete(s: State, e: Event, c: Config)
    requires Sound(s, c) && TailComplete(s, c) && c.backlogMax >= 1 && !Outruns(s, e, c)
    ensures TailComplete(Step(s, e, c), c)
  {
    var after := Step(s, e, c);
    if e != Restart {
      forall k | 0 <= k < |after.sessions| && after.sessions[k].phase != Closed
        ensures SessionComplete(after.sessions[k], after.status, after.deleted, c.sseLimit)
      {
        if k < |s.sessions| {
          OpenBefore(s, e, c, k);
          forall i | NewlyStored(s, after, i) ensures Reach(s.sessions[k]) < after.status[i].id {
            NewIdsStartAtNext(s, e, c, i);
          }
          StepKeepsSessionComplete(s, e, c, k);
        } else {
          OpensComplete(s, e, c, k);
        }
      }
    }
  }

  lemma OpenBefore(s: State, e: Event, c: Config, k: nat)
    requires c.backlogMax >= 1 && e != Restart && k < |s.sessions|
    ensures k < |Step(s, e, c).sessions|
          && (Step(s, e, c).sessions[k].phase != Closed ==> s.sessions[k].phase != Closed)
  {
    StepSessions(s, e, c, k);
    hide Step;
  }

  /** A session owes nothing when it opens. */
  lemma OpensComplete(s: State, e: Event, c: Config, k: nat)
    requires c.backlogMax >= 1 && e != Restart && |s.sessions| <= k < |Step(s, e, c).sessions|
    ensures var after := Step(s, e, c); SessionComplete(after.sessions[k], after.status, after.deleted, c.sseLimit)
  {
    hide W.InsertBatch, Mark, SessionStep, Load, MaxLogId, EntriesOf;
    assert e == Subscribe;
  }

  /** A step that outruns a session leaves it with an entry it will never deliver. */
  lemma OutrunIsIncomplete(s: State, e: Event, c: Config)
    requires Sound(s, c) && c.backlogMax >= 1 && Outruns(s, e, c)
    ensures !TailComplete(Step(s, e, c), c)
  {
    var k :| 0 <= k < |s.sessions| && s.sessions[k].phase != Closed
      && W.NextRowId(s.tables.rows, s.tables.sequence, c.catalog.autoincrement) <= Reach(s.sessions[k]);
    var i := StoredRowGetsNextId(s, e, c);
    StepSessions(s, e, c, k);
    assert SessionInvariant(s.sessions[k], s, c);
    hide Sound, SessionInvariant, StoresARow, SessionComplete, NewlyStored, Step;
    PassedEntryIsMissed(s.sessions[k], s, Step(s, e, c), c, i);
  }

  // ── The exact condition over runs ──────────────────────────────────────────

  /** At every moment of the run, every open session was complete as far as it had read. */
  ghost predicate AlwaysComplete(events: seq<Event>, c: Config)
    requires c.backlogMax >= 1
  {
    TailComplete(Run(events, c), c) && (events != [] ==> AlwaysComplete(events[..|events| - 1], c))
  }

  /** Before every insert that stored a row, the next id was above everything an open session had read. */
  ghost predicate NeverOutrun(events: seq<Event>, c: Config)
    requires c.backlogMax >= 1
  {
    events != [] ==>
      var before := events[..|events| - 1];
      NeverOutrun(before, c) && !Outruns(Run(before, c), events[|events| - 1], c)
  }

  /** The exact condition for the live tail: over any run, for any kind of id column, every open session has
      accounted for every entry stored since it opened or above its start, as far as it has read, at every
      moment, if and only if no insert stores a row while the next row id is one an open session has read past. */
  lemma {:induction false} TailIsCompleteExactlyWhenNotOutrun(events: seq<Event>, c: Config)
    requires c.backlogMax >= 1
    ensures AlwaysComplete(events, c) <==> NeverOutrun(events, c)
  {
    if events != [] {
      var before, e := events[..|events| - 1], events[|events| - 1];
      TailIsCompleteExactlyWhenNotOutrun(before, c);
      EveryRunIsSound(before, c);
      var s := Run(before, c);
      hide Sound, Step, Outruns, TailComplete;
      if Outruns(s, e, c) {
        OutrunIsIncomplete(s, e, c);
      } else if TailComplete(s, c) {
        StepKeepsComplete(s, e, c);
      }
    }
  }

  // ── AUTOINCREMENT ──────────────────────────────────────────────────────────

  lemma ReachIsAssigned(x: Session, s: State, c: Config)
    requires SessionInvariant(x, s, c) && c.catalog.autoincrement
    ensures Reach(x) < W.NextRowId(s.tables.rows, s.tables.sequence, c.catalog.autoincrement)
  {
  }

  /** With AUTOINCREMENT the next id is above everything any session has read. */
  lemma {:induction false} AutoincrementNeverOutruns(events: seq<Event>, c: Config)
    requires c.backlogMax >= 1 && c.catalog.autoincrement
    ensures NeverOutrun(events, c)
  {
    if events != [] {
      var before := events[..|events| - 1];
      AutoincrementNeverOutruns(before, c);
      EveryRunIsSound(before, c);
      var s := Run(before, c);
      hide Run, StoresARow;
      forall k | 0 <= k < |s.sessions|
        ensures Reach(s.sessions[k]) < W.NextRowId(s.tables.rows, s.tables.sequence, c.catalog.autoincrement)
      {
        ReachIsAssigned(s.sessions[k], s, c);
      }
    }
  }

  /** With AUTOINCREMENT closed sessions, too, keep what they had. */
  lemma {:induction false} EverySessionIsComplete(events: seq<Event>, c: Config, k: nat)
    requires c.backlogMax >= 1 && c.catalog.autoincrement && k < |Run(events, c).sessions|
    ensures var s := Run(events, c); SessionComplete(s.sessions[k], s.status, s.deleted, c.sseLimit)
  {
    if events != [] {
      var before, e := events[..|events| - 1], events[|events| - 1];
      var s := Run(before, c);
      EveryRunIsSound(before, c);
      if e != Restart && k < |s.sessions| {
        EverySessionIsComplete(before, c, k);
        assert SessionInvariant(s.sessions[k], s, c);
        hide SessionComplete;
        forall i | NewlyStored(s, Step(s, e, c), i) ensures Reach(s.sessions[k]) < Step(s, e, c).status[i].id {
          NewIdsStartAtNext(s, e, c, i);
          ReachIsAssigned(s.sessions[k], s, c);
        }
        StepKeepsSessionComplete(s, e, c, k);
      } else if e != Restart {
        OpensComplete(s, e, c, k);
      }
    }
  }

  /** Tail accounting with AUTOINCREMENT: every entry stored under an id up to pushed that lies above the
      session's start, or was stored since it opened, falls in a window of that session, was already stored when
      that window was read, and was then sent, or had been vacuumed, or was cut by the row limit. */
  lemma TailIsAccounted(events: seq<Event>, c: Config, k: nat, i: nat)
    requires c.backlogMax >= 1 && c.catalog.autoincrement
    requires var s := Run(events, c);
             && k < |s.sessions| && i < |s.status| && s.status[i].Stored? && s.status[i].id <= s.sessions[k].pushed
             && (s.sessions[k].start < s.status[i].id
                 || !(i < |s.sessions[k].opening| && s.sessions[k].opening[i].Stored?))
    ensures var s := Run(events, c); var ws := s.sessions[k].windows;
            exists m :: 0 <= m < |ws| && Delivered(ws[m], i, s.status[i].id, s.deleted, c.sseLimit)
  {
    EverySessionIsComplete(events, c, k);
    EveryRunIsSound(events, c);
    var s := Run(events, c);
    var x := s.sessions[k];
    assert SessionInvariant(x, s, c);
    hide Run;
    assert Owed(x, s.status, i);
    var m :| 0 <= m < |ReadWindows(x)| && Delivered(ReadWindows(x)[m], i, s.status[i].id, s.deleted, c.sseLimit);
    assert m < |x.windows|;
  }
}
