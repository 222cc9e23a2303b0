/** The invariants of Accounting, and those of the live tails, hold in every run. */
module Runs {
  import opened IdSets
  import opened Sequences
  import opened LogTable
  import opened Backlogs
  import opened Dictionary
  import W = Writer
  import opened Storage
  import opened Queries
  import opened LiveTail
  import opened Service
  import opened Accounting

  // ── Live tails ─────────────────────────────────────────────────────────────

  /** No cursor and no pending window reaches beyond the ids assigned so far. */
  predicate Below(x: Session, sequence: nat) {
    && x.pushed <= sequence
    && match x.phase
       case Counting(hi) => hi <= sequence
       case Selecting(hi) => hi <= sequence
       case Writing(w) => w.hi <= sequence
       case _ => true
  }

  /** What is stored stays stored. */
  ghost predicate StoredStays(status: seq<Status>, after: seq<Status>) {
    |status| <= |after| && forall i :: 0 <= i < |status| && status[i].Stored? ==> after[i] == status[i]
  }

  /** What a window recorded as stored is stored for good. */
  ghost predicate WindowPast(w: Window, status: seq<Status>) {
    StoredStays(w.statuses, status)
  }

  ghost predicate SessionPast(x: Session, status: seq<Status>) {
    && StoredStays(x.opening, status)
    && (forall k :: 0 <= k < |x.windows| ==> WindowPast(x.windows[k], status))
    && (x.phase.Writing? ==> WindowPast(x.phase.window, status))
  }

  predicate NotifierBelow(s: State) {
    s.lastId <= s.tables.sequence && (s.flush.Publishing? ==> s.flush.maxId <= s.tables.sequence)
  }

  ghost predicate SessionInvariant(x: Session, s: State, c: Config) {
    SessionSound(x, c.sseLimit) && Below(x, s.tables.sequence) && SessionPast(x, s.status)
  }

  ghost predicate TailSound(s: State, c: Config) {
    NotifierBelow(s) && forall k :: 0 <= k < |s.sessions| ==> SessionInvariant(s.sessions[k], s, c)
  }

  lemma TailFrame(s: State, after: State, c: Config)
    requires TailSound(s, c) && NotifierBelow(after)
    requires after.sessions == s.sessions && s.tables.sequence <= after.tables.sequence
    requires StoredStays(s.status, after.status)
    ensures TailSound(after, c)
  {
    forall k | 0 <= k < |s.sessions| ensures SessionInvariant(s.sessions[k], after, c) {
      var x := s.sessions[k];
      assert SessionInvariant(x, s, c);
      forall w | w in x.windows || (x.phase.Writing? && w == x.phase.window) ensures WindowPast(w, after.status) {
        assert WindowPast(w, s.status);
      }
    }
  }

  lemma AdvanceInvariant(x: Session, w: Window, s: State, c: Config)
    requires SessionInvariant(x, s, c) && WindowSound(w, c.sseLimit) && WindowPast(w, s.status)
    requires w.lo == x.pushed < w.hi <= s.tables.sequence
    ensures SessionInvariant(Advanced(x, w), s, c)
  {
    AdvancedSound(x, w, c.sseLimit);
  }

  lemma CountInvariant(s: State, x: Session, c: Config)
    requires SessionInvariant(x, s, c)
    ensures SessionInvariant(Counted(x, s.tables.rows, s.status), s, c)
  {
    CountedSound(x, s.tables.rows, s.status, c.sseLimit);
    hide SessionSound, Visible;
  }

  lemma SelectInvariant(s: State, x: Session, order: seq<int>, c: Config)
    requires SessionInvariant(x, s, c) && c.sseLimit >= 0
    requires x.phase.Selecting? ==> Enumerates(order, Visible(s.tables.rows, x.pushed, x.phase.hi))
    ensures SessionInvariant(Selected(x, s.tables.rows, order, c.sseLimit, s.status), s, c)
  {
    SelectedSound(x, s.tables.rows, order, c.sseLimit, s.status);
    hide SessionSound, Visible, Enumerates, Slice;
  }

  lemma SessionStepInvariant(s: State, x: Session, e: Event, c: Config)
    requires SessionInvariant(x, s, c) && NotifierBelow(s) && ForSession(e)
    ensures SessionInvariant(SessionStep(s, x, e, c), s, c)
  {
    hide Visible, Enumerates, NewestFirst, Counted, Selected;
    match e
    case Count(_) => CountInvariant(s, x, c);
    case Select(_, order) =>
      if SessionStep(s, x, e, c) != x {
        SelectInvariant(s, x, order, c);
      }
    case FinishWrite(_) =>
      if x.phase.Writing? {
        AdvanceInvariant(x, x.phase.window, s, c);
      }
    case _ =>
  }

  lemma SessionEventKeepsTail(s: State, e: Event, c: Config)
    requires TailSound(s, c) && ForSession(e) && c.backlogMax >= 1
    ensures TailSound(Step(s, e, c), c)
  {
    if e.k < |s.sessions| {
      assert SessionInvariant(s.sessions[e.k], s, c);
      SessionStepInvariant(s, s.sessions[e.k], e, c);
      hide SessionInvariant, SessionStep;
    }
  }

  // ── Every step ─────────────────────────────────────────────────────────────

  ghost predicate Sound(s: State, c: Config) {
    PipelineSound(s, c) && StorageSound(s, c.catalog) && TailSound(s, c)
  }

  lemma MaxBelow(t: Tables)
    requires IdsSound(t.rows, t.sequence)
    ensures 0 <= MaxLogId(t.rows) <= t.sequence
    ensures MaxLogId(t.rows) == 0 <==> t.rows.Keys == {}
  {
    if t.rows.Keys != {} {
      assert MaxLogId(t.rows) in t.rows;
    }
  }

  lemma EvictionKeepsStored(s: State, c: Config)
    requires PipelineSound(s, c) && c.backlogMax >= 1
    ensures var evicted := Backlogs.Evicted(s.queue, c.backlogMax);
            SameStored(s.status, Mark(s.status, evicted, Repeat(LiveTail.Evicted, |evicted|)))
  {
    var evicted := Backlogs.Evicted(s.queue, c.backlogMax);
    if evicted != [] {
      assert s.status[s.queue.items[0]] == Queued;
      MarkKeepsStored(s.status, evicted, Repeat(LiveTail.Evicted, |evicted|));
    }
  }

  lemma AddKeepsPipeline(s: State, entry: LogEntry, c: Config)
    requires PipelineSound(s, c) && c.backlogMax >= 1
    ensures PipelineSound(Accept(s, entry, c), c) && SameStored(s.status, Accept(s, entry, c).status)
  {
    hide PlacesSound, Mark, Repeat;
    AddedPlaces(s.status, HeldEntries(s.flush), s.queue, c.backlogMax);
    EvictionKeepsStored(s, c);
  }

  lemma MemoryIsSound(s: State, cat: Catalog)
    requires StorageSound(s, cat)
    ensures Agrees(s.lookup, s.tables.dict, cat) && (s.flush != Ended ==> InStep(s.lookup, s.tables.dict, cat))
  {
    hide Agrees, InStep, RowOwned, IdsSound;
  }

  lemma AddKeepsSound(s: State, entry: LogEntry, c: Config)
    requires Sound(s, c) && c.backlogMax >= 1
    ensures Sound(Accept(s, entry, c), c)
  {
    hide PlacesSound, PipelineSound, StorageSound, Mark, Repeat, Agrees, InStep;
    AddKeepsPipeline(s, entry, c);
    MemoryIsSound(s, c.catalog);
    StorageFrame(s, Accept(s, entry, c), c.catalog);
    TailFrame(s, Accept(s, entry, c), c);
  }

  lemma QueueIsInFlight(status: seq<Status>, queued: seq<nat>)
    requires PlacesSound(status, [], queued)
    ensures Ascending(queued)
    ensures forall k :: 0 <= k < |queued| ==> queued[k] < |status| && InFlightStatus(status[queued[k]])
  {
    assert [] + queued == queued;
  }

  lemma DrainKeepsPipeline(s: State, c: Config)
    requires PipelineSound(s, c) && c.backlogMax >= 1 && s.flush == Polling
    ensures PipelineSound(DrainBacklog(s), c) && SameStored(s.status, DrainBacklog(s).status)
  {
    hide PlacesSound, Mark, Repeat, Ascending;
    var items := s.queue.items;
    if items != [] {
      DrainedPlaces(s.status, items);
      QueueIsInFlight(s.status, items);
      MarkKeepsStored(s.status, items, Repeat(Held, |items|));
    }
  }

  lemma DrainKeepsSound(s: State, c: Config)
    requires Sound(s, c) && c.backlogMax >= 1 && s.flush == Polling
    ensures Sound(DrainBacklog(s), c)
  {
    hide PlacesSound, PipelineSound, StorageSound, Mark, Repeat, Agrees, InStep;
    DrainKeepsPipeline(s, c);
    MemoryIsSound(s, c.catalog);
    StorageFrame(s, DrainBacklog(s), c.catalog);
    TailFrame(s, DrainBacklog(s), c);
  }

  /** The held entries end as marks that store nothing; tables stay. */
  lemma BatchEndsWithoutRows(s: State, after: State, mark: Status, c: Config)
    requires Sound(s, c) && s.flush.Holding? && !InFlightStatus(mark) && !mark.Stored?
    requires after == s.(lookup := after.lookup, flush := after.flush,
                         status := Mark(s.status, s.flush.batch, Repeat(mark, |s.flush.batch|)))
    requires after.flush.Ended? || (after.flush.Publishing? && after.flush.maxId <= s.tables.sequence
          && after.lookup == s.lookup)
    requires Agrees(after.lookup, s.tables.dict, c.catalog)
    ensures Sound(after, c)
  {
    hide Mark, PlacesSound, StorageSound, Agrees, InStep, Ascending;
    var batch := s.flush.batch;
    HeldMarks(s.status, batch, s.queue.items, Repeat(mark, |batch|));
    HeldSettled(s.status, batch, s.queue.items, Repeat(mark, |batch|));
    MarkKeepsStored(s.status, batch, Repeat(mark, |batch|));
    MemoryIsSound(s, c.catalog);
    StorageFrame(s, after, c.catalog);
    TailFrame(s, after, c);
  }

  lemma CommitKeepsStored(s: State, after: State, fates: seq<W.Fate>, cat: Catalog)
    requires Commits(s, after, fates, cat)
    ensures StoredStays(s.status, after.status)
  {
    HeldMarks(s.status, HeldEntries(s.flush), s.queue.items, StatusesOf(fates));
  }

  lemma StatusesNotInFlight(fates: seq<W.Fate>)
    ensures forall k :: 0 <= k < |fates| ==> !InFlightStatus(StatusesOf(fates)[k])
  {
  }

  lemma CommitKeepsSound(s: State, after: State, fates: seq<W.Fate>, c: Config)
    requires Sound(s, c) && s.flush.Holding? && Commits(s, after, fates, c.catalog)
    requires after.queue == s.queue && after.sessions == s.sessions && after.lastId == s.lastId
    requires after.flush == Ended || after.flush == Publishing(MaxLogId(after.tables.rows))
    ensures Sound(after, c)
  {
    StatusesNotInFlight(fates);
    HeldSettled(s.status, s.flush.batch, s.queue.items, StatusesOf(fates));
    CommitKeepsStorage(s, after, fates, c.catalog);
    MaxBelow(after.tables);
    CommitKeepsStored(s, after, fates, c.catalog);
    TailFrame(s, after, c);
  }

  lemma InsertKeepsSound(s: State, faults: W.Faults, maxIdFails: bool, c: Config)
    requires Sound(s, c) && s.flush.Holding?
    ensures Sound(RunInsert(s, faults, maxIdFails, c), c)
  {
    var entries := EntriesOf(s.arrivals, s.flush.batch);
    var r := W.InsertBatch(s.tables, s.lookup, c.catalog, entries, faults);
    var after := RunInsert(s, faults, maxIdFails, c);
    InsertIsSound(s.tables, s.lookup, c.catalog, entries, faults);
    MaxBelow(s.tables);
    hide W.InsertBatch, Mark, EntriesOf, MaxLogId, PlacesSound;
    match r
    case NothingToDo => BatchEndsWithoutRows(s, after, NoColumns, c);
    case Committed(t, lookup, fates) => CommitKeepsSound(s, after, fates, c);
    case Aborted(lookup) => BatchEndsWithoutRows(s, after, LostInBatch, c);
  }

  lemma RestartKeepsPipeline(s: State, c: Config)
    requires PipelineSound(s, c) && c.backlogMax >= 1
    ensures PipelineSound(Restarted(s), c) && SameStored(s.status, Restarted(s).status)
  {
    InFlightSettled(s.status, HeldEntries(s.flush), s.queue.items, Repeat(LostAtExit, |InFlight(s)|));
    hide PlacesSound, Mark, Load;
  }

  lemma RestartKeepsSound(s: State, c: Config)
    requires Sound(s, c) && c.backlogMax >= 1
    ensures Sound(Restarted(s), c)
  {
    RestartKeepsPipeline(s, c);
    RestartIsInStep(s.lookup, s.tables.dict, c.catalog);
    MaxBelow(s.tables);
    hide PipelineSound, Mark, Load;
    StorageFrame(s, Restarted(s), c.catalog);
  }

  lemma StepKeepsSound(s: State, e: Event, c: Config)
    requires Sound(s, c) && c.backlogMax >= 1
    ensures Sound(Step(s, e, c), c)
  {
    if e.Publish? || e.StopFlush? || e.Subscribe? || ForSession(e) {
      QuietStepKeepsSound(s, e, c);
    } else {
      hide Sound, Accept, DrainBacklog, RunInsert, Restarted, Deleted;
      match e
      case AddEntry(entry) => AddKeepsSound(s, entry, c);
      case Drain => if s.flush == Polling { DrainKeepsSound(s, c); }
      case InsertJob(faults, maxIdFails) => if s.flush.Holding? { InsertKeepsSound(s, faults, maxIdFails, c); }
      case DeleteJob(ids) => DeleteKeepsSound(s, ids, c);
      case Restart => RestartKeepsSound(s, c);
    }
  }

  lemma DeleteKeepsSound(s: State, ids: set<int>, c: Config)
    requires Sound(s, c) && c.backlogMax >= 1
    ensures Sound(Deleted(s, ids), c)
  {
    DeleteKeepsStorage(s, ids, c.catalog);
    TailFrame(s, Deleted(s, ids), c);
    hide StorageSound, PlacesSound, SessionInvariant;
  }

  /** Steps that change neither tables nor statuses. */
  lemma QuietStepKeepsSound(s: State, e: Event, c: Config)
    requires Sound(s, c) && c.backlogMax >= 1 && (e.Publish? || e.StopFlush? || e.Subscribe? || ForSession(e))
    ensures Sound(Step(s, e, c), c)
  {
    hide PlacesSound, SessionStep, RowOwned, IdsSound, Agrees;
    StorageFrame(s, Step(s, e, c), c.catalog);
    hide StorageSound;
    if ForSession(e) {
      SessionEventKeepsTail(s, e, c);
    }
  }

  lemma {:induction false} EveryRunIsSound(events: seq<Event>, c: Config)
    requires c.backlogMax >= 1
    ensures Sound(Run(events, c), c)
  {
    if events != [] {
      EveryRunIsSound(events[..|events| - 1], c);
      StepKeepsSound(Run(events[..|events| - 1], c), events[|events| - 1], c);
    }
  }

  lemma StepSessions(s: State, e: Event, c: Config, k: nat)
    requires c.backlogMax >= 1 && e != Restart && k < |s.sessions|
    ensures var after := Step(s, e, c);
            k < |after.sessions|
            && after.sessions[k] == if ForSession(e)
                  && e.k == k then SessionStep(s, s.sessions[k], e, c) else s.sessions[k]
  {
    hide W.InsertBatch, Mark, SessionStep, Load, MaxLogId, EntriesOf;
  }

  lemma RunOfNone(c: Config)
    requires c.backlogMax >= 1
    ensures Run([], c) == Start(c)
  {
    hide Step, Start;
  }

  lemma RestartStep(s: State, c: Config)
    requires c.backlogMax >= 1
    ensures Step(s, Restart, c) == Restarted(s)
  {
    hide Restarted, SessionStep, Accept, RunInsert;
  }

  // ── Single events ──────────────────────────────────────────────────────────

  lemma RunOne(c: Config, events: seq<Event>, e: Event, s: State)
    requires c.backlogMax >= 1 && Run(events, c) == s
    ensures Run(events + [e], c) == Step(s, e, c)
  {
    assert (events + [e])[..|events|] == events;
  }

  lemma EntryIsQueued(s: State, entry: LogEntry, c: Config)
    requires s.queue.items == [] && |s.status| == |s.arrivals| && c.backlogMax >= 1
    ensures Step(s, AddEntry(entry), c)
         == s.(queue := Queue([|s.status|], s.queue.full || AtWatermark(1, c.backlogMax)),
               arrivals := s.arrivals + [entry], status := s.status + [Queued])
  {
    assert [] + [|s.status|] == [|s.status|];
  }

  lemma QueueIsDrained(s: State, status: seq<Status>, c: Config)
    requires s.queue.items == [|status|] && s.flush == Polling && s.status == status + [Queued] && c.backlogMax >= 1
    ensures Step(s, Drain, c) == s.(queue := Empty(), flush := Holding([|status|]), status := status + [Held])
  {
    MarkLast(status, Queued, Held);
    assert Repeat(Held, 1) == [Held];
    hide Mark;
  }

  lemma MarkLast(status: seq<Status>, was: Status, mark: Status)
    ensures Mark(status + [was], [|status|], [mark]) == status + [mark]
  {
    hide Mark;
    var all := status + [was];
    MarkOne(all, |status|, mark);
    assert all[|status| := mark] == status + [mark];
  }

  lemma MarkOne(status: seq<Status>, i: nat, mark: Status)
    requires i < |status|
    ensures Mark(status, [i], [mark]) == status[i := mark]
  {
    MarkNone(status);
    var batch, marks := [i], [mark];
    assert batch[..0] == [] && marks[..0] == [];
  }

  lemma MarkNone(status: seq<Status>)
    ensures Mark(status, [], []) == status
  {
  }
}
