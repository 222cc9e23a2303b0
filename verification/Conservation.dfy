/** What every run does with what producers hand in: each entry ends in one place, and for a reason. */
module Conservation {
  import opened IdSets
  import opened Sequences
  import opened LogTable
  import opened Backlogs
  import opened Dictionary
  import W = Writer
  import opened Storage
  import opened Aborts
  import opened Queries
  import opened LiveTail
  import opened Service
  import opened Accounting
  import opened Runs

  /** The entries producers handed to the backlog, in order. */
  function Produced(events: seq<Event>): seq<LogEntry> {
    if events == [] then []
    else
      var e := events[|events| - 1];
      Produced(events[..|events| - 1]) + (if e.AddEntry? then [e.entry] else [])
  }

  lemma StepArrivals(s: State, e: Event, c: Config)
    requires c.backlogMax >= 1
    ensures Step(s, e, c).arrivals == s.arrivals + (if e.AddEntry? then [e.entry] else [])
  {
    hide W.InsertBatch, Mark, SessionStep, Load, MaxLogId, EntriesOf;
    assert s.arrivals + [] == s.arrivals;
  }

  lemma {:induction false} ArrivalsAreProduced(events: seq<Event>, c: Config)
    requires c.backlogMax >= 1
    ensures Run(events, c).arrivals == Produced(events)
  {
    if events != [] {
      ArrivalsAreProduced(events[..|events| - 1], c);
      StepArrivals(Run(events[..|events| - 1], c), events[|events| - 1], c);
      hide Step;
    }
  }

  // ── Why an entry ended where it did ────────────────────────────────────────

  /** An entry is skipped only for a missing required value, stored or refused by SQLite only without one, and
      set aside for want of columns only if there are none. */
  predicate Earned(x: Status, entry: LogEntry, cat: Catalog) {
    match x
    case Skipped => LacksRequired(entry, cat.DataColumns())
    case Stored(_) => !LacksRequired(entry, cat.DataColumns())
    case Rejected => !LacksRequired(entry, cat.DataColumns())
    case NoColumns => cat.DataColumns() == []
    case _ => true
  }

  /** An evicted entry was followed by as many others as the backlog holds. */
  predicate EvictedWhenFull(x: Status, i: nat, arrived: nat, max: nat) {
    x == LiveTail.Evicted ==> i + max < arrived
  }

  ghost predicate StatusesEarned(s: State, c: Config) {
    && |s.status| == |s.arrivals|
    && (forall i :: 0 <= i < |s.status| ==> Earned(s.status[i], s.arrivals[i], c.catalog))
    && (forall i :: 0 <= i < |s.status| ==> EvictedWhenFull(s.status[i], i, |s.arrivals|, c.backlogMax))
  }

  /** What became of entry i: the mark of its place in the batch, or nothing (-1) if it is not in the batch. */
  lemma MarkOf(status: seq<Status>, batch: seq<nat>, marks: seq<Status>, i: nat) returns (k: int)
    requires |batch| == |marks| && Ascending(batch) && i < |status|
    requires forall j :: 0 <= j < |batch| ==> batch[j] < |status|
    ensures if k < 0 then Mark(status, batch, marks)[i] == status[i]
            else k < |batch| && batch[k] == i && Mark(status, batch, marks)[i] == marks[k]
  {
    MarkAt(status, batch, marks);
    hide Mark, Ascending;
    if i in batch {
      k :| 0 <= k < |batch| && batch[k] == i;
    } else {
      k := -1;
    }
  }

  /** Marking entries with statuses they have earned. */
  lemma MarkedEarned(s: State, after: State, batch: seq<nat>, marks: seq<Status>, c: Config)
    requires StatusesEarned(s, c) && |batch| == |marks| && Ascending(batch)
    requires forall j :: 0 <= j < |batch| ==> batch[j] < |s.status|
    requires after.status == Mark(s.status, batch, marks) && after.arrivals == s.arrivals
    requires forall j :: 0 <= j < |batch| ==>
      Earned(marks[j], s.arrivals[batch[j]], c.catalog) && marks[j] != LiveTail.Evicted
    ensures StatusesEarned(after, c)
  {
    hide Mark, Ascending, Earned;
    forall i | 0 <= i < |after.status|
      ensures Earned(after.status[i], after.arrivals[i], c.catalog)
      ensures EvictedWhenFull(after.status[i], i, |after.arrivals|, c.backlogMax)
    {
      var k := MarkOf(s.status, batch, marks, i);
      assert Earned(s.status[i], s.arrivals[i], c.catalog);
      assert EvictedWhenFull(s.status[i], i, |s.arrivals|, c.backlogMax);
    }
  }

  lemma AscendingAtLeast(s: seq<nat>, k: nat)
    requires Ascending(s) && k < |s|
    ensures s[0] + k <= s[k]
  {
    if k > 0 {
      AscendingAtLeast(s, k - 1);
      assert s[k - 1] < s[k];
    }
  }

  /** The oldest of a full queue arrived a whole backlog before the newest. */
  lemma OldestIsBacklogAway(status: seq<Status>, held: seq<nat>, queued: seq<nat>)
    requires PlacesSound(status, held, queued) && queued != []
    ensures queued[0] + |queued| <= |status|
  {
    QueueAscends(held, queued);
    AscendingAtLeast(queued, |queued| - 1);
  }

  lemma AddKeepsEarned(s: State, entry: LogEntry, c: Config)
    requires PipelineSound(s, c) && c.backlogMax >= 1 && StatusesEarned(s, c)
    ensures StatusesEarned(Accept(s, entry, c), c)
  {
    var after := Accept(s, entry, c);
    AcceptedStatus(s, entry, c);
    hide Accept, Mark, PipelineSound, Earned, EvictedWhenFull;
    forall i | 0 <= i < |after.status|
      ensures Earned(after.status[i], after.arrivals[i], c.catalog)
      ensures EvictedWhenFull(after.status[i], i, |after.arrivals|, c.backlogMax)
    {
      AcceptedEarned(s, entry, c, i);
    }
  }

  lemma AcceptedEarned(s: State, entry: LogEntry, c: Config, i: nat)
    requires PipelineSound(s, c) && c.backlogMax >= 1 && StatusesEarned(s, c)
    requires i < |Accept(s, entry, c).status| == |Accept(s, entry, c).arrivals|
    ensures Earned(Accept(s, entry, c).status[i], Accept(s, entry, c).arrivals[i], c.catalog)
    ensures EvictedWhenFull(Accept(s, entry, c).status[i], i, |Accept(s, entry, c).arrivals|, c.backlogMax)
  {
    AcceptedStatus(s, entry, c);
    hide Accept;
    if i < |s.status| {
      EarnedAt(s, c, i);
      var k := EvictionOf(s, c, i);
      hide Mark, PlacesSound, PipelineSound, StatusesEarned;
    }
  }

  /** Eviction marks an entry only if it is the oldest of a full queue. */
  lemma EvictionOf(s: State, c: Config, i: nat) returns (k: int)
    requires PipelineSound(s, c) && c.backlogMax >= 1 && i < |s.status|
    ensures var evicted := Backlogs.Evicted(s.queue, c.backlogMax);
            var marked := Mark(s.status, evicted, Repeat(LiveTail.Evicted, |evicted|))[i];
            if k < 0 then marked == s.status[i] else marked == LiveTail.Evicted && i + c.backlogMax <= |s.status|
  {
    var evicted := Backlogs.Evicted(s.queue, c.backlogMax);
    if evicted != [] {
      OldestIsBacklogAway(s.status, HeldEntries(s.flush), s.queue.items);
    }
    hide Mark, PlacesSound;
    k := MarkOf(s.status, evicted, Repeat(LiveTail.Evicted, |evicted|), i);
  }

  lemma AcceptedStatus(s: State, entry: LogEntry, c: Config)
    requires c.backlogMax >= 1
    ensures var after, evicted := Accept(s, entry, c), Backlogs.Evicted(s.queue, c.backlogMax);
            && after.status == Mark(s.status, evicted, Repeat(LiveTail.Evicted, |evicted|)) + [Queued]
            && after.arrivals == s.arrivals + [entry]
  {
    hide Mark, Repeat;
  }

  lemma EarnedAt(s: State, c: Config, i: nat)
    requires StatusesEarned(s, c) && i < |s.status|
    ensures Earned(s.status[i], s.arrivals[i], c.catalog)
    ensures EvictedWhenFull(s.status[i], i, |s.arrivals|, c.backlogMax)
  {
  }

  lemma BatchInRange(s: State)
    requires s.flush.Holding? && PlacesSound(s.status, s.flush.batch, s.queue.items)
    ensures Ascending(s.flush.batch) && forall j :: 0 <= j < |s.flush.batch| ==> s.flush.batch[j] < |s.status|
  {
    HeldMarks(s.status, s.flush.batch, s.queue.items, Repeat(Held, |s.flush.batch|));
  }

  /** The fates of a commit are statuses their entries have earned. */
  lemma FatesEarned(t: Tables, lookup: Lookup, cat: Catalog, entries: seq<LogEntry>, r: W.InsertResult, j: nat)
    requires InsertSound(t, lookup, cat, entries, r) && r.Committed? && j < |entries|
    ensures |r.fates| == |entries| && Earned(StatusesOf(r.fates)[j], entries[j], cat)
          && StatusesOf(r.fates)[j] != LiveTail.Evicted
  {
    hide LacksRequired, BatchSound, W.NextRowId, FirstId;
  }

  lemma InsertKeepsEarned(s: State, faults: W.Faults, maxIdFails: bool, c: Config)
    requires Sound(s, c) && s.flush.Holding? && StatusesEarned(s, c)
    ensures StatusesEarned(RunInsert(s, faults, maxIdFails, c), c)
  {
    var batch, after := s.flush.batch, RunInsert(s, faults, maxIdFails, c);
    var entries := EntriesOf(s.arrivals, batch);
    var r := W.InsertBatch(s.tables, s.lookup, c.catalog, entries, faults);
    InsertIsSound(s.tables, s.lookup, c.catalog, entries, faults);
    BatchInRange(s);
    assert |s.arrivals| == |s.status|;
    hide W.InsertBatch, Mark, Sound, InsertSound, Ascending, EntriesOf, StatusesEarned, Earned;
    match r
    case NothingToDo =>
      NothingToDoEarned(s.tables, s.lookup, c.catalog, entries);
      MarkedEarned(s, after, batch, Repeat(NoColumns, |batch|), c);
    case Aborted(_) =>
      LossEarned(c.catalog);
      MarkedEarned(s, after, batch, Repeat(LostInBatch, |batch|), c);
    case Committed(_, _, fates) =>
      forall j | 0 <= j < |batch|
        ensures |fates| == |batch| && Earned(StatusesOf(fates)[j], s.arrivals[batch[j]], c.catalog)
             && StatusesOf(fates)[j] != LiveTail.Evicted
      {
        FatesEarned(s.tables, s.lookup, c.catalog, entries, r, j);
      }
      CommitHasAllFates(s.tables, s.lookup, c.catalog, entries, r);
      MarkedEarned(s, after, batch, StatusesOf(fates), c);
  }

  lemma NothingToDoEarned(t: Tables, lookup: Lookup, cat: Catalog, entries: seq<LogEntry>)
    requires InsertSound(t, lookup, cat, entries, W.NothingToDo)
    ensures entries == [] || forall entry :: Earned(NoColumns, entry, cat)
  {
  }

  lemma LossEarned(cat: Catalog)
    ensures forall entry :: Earned(LostInBatch, entry, cat)
  {
  }

  lemma CommitHasAllFates(t: Tables, lookup: Lookup, cat: Catalog, entries: seq<LogEntry>, r: W.InsertResult)
    requires InsertSound(t, lookup, cat, entries, r) && r.Committed?
    ensures |r.fates| == |entries|
  {
  }

  lemma StepKeepsEarned(s: State, e: Event, c: Config)
    requires Sound(s, c) && c.backlogMax >= 1 && StatusesEarned(s, c)
    ensures StatusesEarned(Step(s, e, c), c)
  {
    hide Mark, PlacesSound, Ascending, W.InsertBatch, SessionStep, Load;
    match e
    case AddEntry(entry) => AddKeepsEarned(s, entry, c);
    case Drain =>
      if s.flush == Polling && s.queue.items != [] {
        QueueInRange(s, c);
        MarkedEarned(s, Step(s, e, c), s.queue.items, Repeat(Held, |s.queue.items|), c);
      }
    case InsertJob(faults, maxIdFails) => if s.flush.Holding? { InsertKeepsEarned(s, faults, maxIdFails, c); }
    case Restart =>
      FlightInRange(s, c);
      MarkedEarned(s, Step(s, e, c), InFlight(s), Repeat(LostAtExit, |InFlight(s)|), c);
    case _ =>
  }

  lemma FlightInRange(s: State, c: Config)
    requires PipelineSound(s, c)
    ensures Ascending(InFlight(s)) && forall k :: 0 <= k < |InFlight(s)| ==> InFlight(s)[k] < |s.status|
  {
    var held, queued := HeldEntries(s.flush), s.queue.items;
    forall k | 0 <= k < |held + queued| ensures (held + queued)[k] < |s.status| {
      assert (held + queued)[k] == if k < |held| then held[k] else queued[k - |held|];
    }
  }

  lemma QueueInRange(s: State, c: Config)
    requires PipelineSound(s, c)
    ensures Ascending(s.queue.items) && forall k :: 0 <= k < |s.queue.items| ==> s.queue.items[k] < |s.status|
  {
    QueueAscends(HeldEntries(s.flush), s.queue.items);
  }

  lemma {:induction false} RunEarnsStatuses(events: seq<Event>, c: Config)
    requires c.backlogMax >= 1
    ensures StatusesEarned(Run(events, c), c)
  {
    if events != [] {
      RunEarnsStatuses(events[..|events| - 1], c);
      EveryRunIsSound(events[..|events| - 1], c);
      StepKeepsEarned(Run(events[..|events| - 1], c), events[|events| - 1], c);
      hide Step;
    }
  }

  // ── What is lost ───────────────────────────────────────────────────────────

  ghost predicate Is(s: State, i: nat, x: Status) { i < |s.status| && s.status[i] == x }

  /** The event loses the entry: with its batch, if it is the job of that batch and the batch fails; at exit, if it
      ends the process with the entry queued or in hand. */
  ghost predicate Loses(s: State, e: Event, i: nat, c: Config, x: Status) {
    match x
    case LostInBatch =>
      && e.InsertJob? && i in HeldEntries(s.flush)
      && Fails(s.lookup, c.catalog, EntriesOf(s.arrivals, HeldEntries(s.flush)), e.faults)
    case LostAtExit => e == Restart && i in InFlight(s)
    case _ => false
  }

  ghost predicate LosesAt(events: seq<Event>, c: Config, i: nat, x: Status, k: nat)
    requires c.backlogMax >= 1
  {
    k < |events| && Loses(Run(events[..k], c), events[k], i, c, x)
  }

  ghost predicate SomeEventLoses(events: seq<Event>, c: Config, i: nat, x: Status)
    requires c.backlogMax >= 1
  {
    exists k: nat :: LosesAt(events, c, i, x, k)
  }

  /** One mark for entries in flight. */
  lemma InFlightMarked(status: seq<Status>, batch: seq<nat>, mark: Status, i: nat)
    requires Ascending(batch) && i < |status|
    requires forall j :: 0 <= j < |batch| ==> batch[j] < |status| && InFlightStatus(status[batch[j]])
    ensures var after := Mark(status, batch, Repeat(mark, |batch|))[i];
            if i in batch then after == mark && InFlightStatus(status[i]) else after == status[i]
  {
    MarkAt(status, batch, Repeat(mark, |batch|));
    hide Mark, Ascending;
    if i in batch {
      var k :| 0 <= k < |batch| && batch[k] == i;
    }
  }

  lemma FlightAt(s: State, c: Config, k: nat)
    requires PipelineSound(s, c) && k < |InFlight(s)|
    ensures InFlight(s)[k] < |s.status| && InFlightStatus(s.status[InFlight(s)[k]])
  {
    var held, queued := HeldEntries(s.flush), s.queue.items;
    assert (held + queued)[k] == if k < |held| then held[k] else queued[k - |held|];
    hide Ascending;
  }

  lemma FlightStatuses(s: State, c: Config)
    requires PipelineSound(s, c)
    ensures forall k :: 0 <= k < |InFlight(s)| ==>
              InFlight(s)[k] < |s.status| && InFlightStatus(s.status[InFlight(s)[k]])
    ensures Ascending(HeldEntries(s.flush)) && Ascending(s.queue.items) && Ascending(InFlight(s))
    ensures forall i :: i in InFlight(s) <==> i in HeldEntries(s.flush) || i in s.queue.items
    ensures forall i :: i in InFlight(s) ==> i < |s.status| && InFlightStatus(s.status[i])
  {
    var held, queued := HeldEntries(s.flush), s.queue.items;
    QueueAscends(held, queued);
    HeldMarks(s.status, held, queued, Repeat(Held, |held|));
    hide PlacesSound, Mark, Ascending;
    forall k | 0 <= k < |InFlight(s)|
      ensures InFlight(s)[k] < |s.status| && InFlightStatus(s.status[InFlight(s)[k]])
    {
      FlightAt(s, c, k);
    }
    hide PipelineSound;
  }

  lemma AddLosesNothing(s: State, entry: LogEntry, c: Config, i: nat, x: Status)
    requires PipelineSound(s, c) && c.backlogMax >= 1 && (x == LostInBatch || x == LostAtExit)
    ensures Is(Accept(s, entry, c), i, x) <==> Is(s, i, x)
  {
    AcceptedStatus(s, entry, c);
    FlightStatuses(s, c);
    var evicted := Backlogs.Evicted(s.queue, c.backlogMax);
    hide PipelineSound, Accept, Mark;
    if i < |s.status| {
      forall j | 0 <= j < |evicted| ensures evicted[j] in InFlight(s) {
        assert evicted[j] == s.queue.items[0];
      }
      InFlightMarked(s.status, evicted, LiveTail.Evicted, i);
    }
  }

  lemma DrainLosesNothing(s: State, c: Config, i: nat, x: Status)
    requires PipelineSound(s, c) && (x == LostInBatch || x == LostAtExit)
    ensures Is(DrainBacklog(s), i, x) <==> Is(s, i, x)
  {
    FlightStatuses(s, c);
    hide PipelineSound, Mark, Ascending;
    if i < |s.status| && s.queue.items != [] {
      forall j | 0 <= j < |s.queue.items| ensures s.queue.items[j] in InFlight(s) {
      }
      InFlightMarked(s.status, s.queue.items, Held, i);
    }
  }

  lemma RestartLoses(s: State, c: Config, i: nat)
    requires PipelineSound(s, c)
    ensures Is(Restarted(s), i, LostInBatch) <==> Is(s, i, LostInBatch)
    ensures Is(Restarted(s), i, LostAtExit) <==> Is(s, i, LostAtExit) || i in InFlight(s)
  {
    FlightStatuses(s, c);
    hide PipelineSound, Mark, Ascending, Load;
    if i < |s.status| {
      InFlightMarked(s.status, InFlight(s), LostAtExit, i);
    }
  }

  lemma HandIsInFlight(s: State, c: Config)
    requires PipelineSound(s, c) && s.flush.Holding?
    ensures Ascending(s.flush.batch)
    ensures forall j :: 0 <= j < |s.flush.batch| ==>
              s.flush.batch[j] < |s.status| && InFlightStatus(s.status[s.flush.batch[j]])
  {
    FlightStatuses(s, c);
    hide PipelineSound, Ascending;
    forall j | 0 <= j < |s.flush.batch|
      ensures s.flush.batch[j] < |s.status| && InFlightStatus(s.status[s.flush.batch[j]])
    {
      assert s.flush.batch[j] in HeldEntries(s.flush);
    }
  }

  lemma InsertMarks(s: State, faults: W.Faults, maxIdFails: bool, c: Config)
    requires s.flush.Holding?
    ensures var batch := s.flush.batch;
            RunInsert(s, faults, maxIdFails, c).status == Mark(s.status, batch,
              match W.InsertBatch(s.tables, s.lookup, c.catalog, EntriesOf(s.arrivals, batch), faults)
              case NothingToDo => Repeat(NoColumns, |batch|)
              case Committed(_, _, fates) => StatusesOf(fates)
              case Aborted(_) => Repeat(LostInBatch, |batch|))
  {
    hide Mark, W.InsertBatch, EntriesOf, StatusesOf, Repeat, MaxLogId;
  }

  lemma MarkLoses(status: seq<Status>, batch: seq<nat>, mark: Status, i: nat, x: Status)
    requires Ascending(batch) && i < |status| && (x == LostInBatch || x == LostAtExit)
    requires forall j :: 0 <= j < |batch| ==> batch[j] < |status| && InFlightStatus(status[batch[j]])
    ensures Mark(status, batch, Repeat(mark, |batch|))[i] == x <==> status[i] == x || (i in batch && mark == x)
  {
    hide Mark, Ascending, Repeat;
    InFlightMarked(status, batch, mark, i);
  }

  /** What one job does to the losses. */
  lemma InsertLoses(s: State, faults: W.Faults, maxIdFails: bool, c: Config, i: nat, x: Status)
    requires PipelineSound(s, c) && s.flush.Holding? && (x == LostInBatch || x == LostAtExit)
    ensures var after, e := RunInsert(s, faults, maxIdFails, c), InsertJob(faults, maxIdFails);
            Is(after, i, x) <==> Is(s, i, x) || Loses(s, e, i, c, x)
  {
    hide PipelineSound, Mark, Ascending, W.InsertBatch, Fails, EntriesOf, StatusesOf, InFlight, RunInsert, Repeat;
    hide InFlightStatus;
    var batch := s.flush.batch;
    var entries := EntriesOf(s.arrivals, batch);
    HandIsInFlight(s, c);
    InsertMarks(s, faults, maxIdFails, c);
    AbortsExactlyWhen(s.tables, s.lookup, c.catalog, entries, faults);
    if i < |s.status| {
      match W.InsertBatch(s.tables, s.lookup, c.catalog, entries, faults)
      case NothingToDo => MarkLoses(s.status, batch, NoColumns, i, x);
      case Aborted(_) => MarkLoses(s.status, batch, LostInBatch, i, x);
      case Committed(_, _, fates) => FatesLoseNothing(s, batch, fates, i, x);
    }
  }

  lemma FateIsNoLoss(f: W.Fate, x: Status)
    requires x == LostInBatch || x == LostAtExit
    ensures StatusOf(f) != x
  {
  }

  lemma UnevenMark(status: seq<Status>, batch: seq<nat>, marks: seq<Status>)
    requires |batch| != |marks|
    ensures Mark(status, batch, marks) == status
  {
  }

  lemma FatesLoseNothing(s: State, batch: seq<nat>, fates: seq<W.Fate>, i: nat, x: Status)
    requires Ascending(batch) && i < |s.status| && (x == LostInBatch || x == LostAtExit)
    requires forall j :: 0 <= j < |batch| ==> batch[j] < |s.status| && InFlightStatus(s.status[batch[j]])
    ensures Mark(s.status, batch, StatusesOf(fates))[i] == x <==> s.status[i] == x
  {
    hide Mark, Ascending;
    if |batch| == |fates| {
      var k := MarkOf(s.status, batch, StatusesOf(fates), i);
      if k >= 0 {
        assert InFlightStatus(s.status[batch[k]]);
        FateIsNoLoss(fates[k], x);
      }
    } else {
      UnevenMark(s.status, batch, StatusesOf(fates));
    }
  }

  lemma StepLoses(s: State, e: Event, c: Config, i: nat, x: Status)
    requires PipelineSound(s, c) && c.backlogMax >= 1 && (x == LostInBatch || x == LostAtExit)
    ensures Is(Step(s, e, c), i, x) <==> Is(s, i, x) || Loses(s, e, i, c, x)
  {
    hide PipelineSound, Fails, EntriesOf, Accept, DrainBacklog, RunInsert, Restarted, SessionStep, Deleted, InFlight;
    match e
    case AddEntry(entry) => AddLosesNothing(s, entry, c, i, x);
    case Drain => DrainLosesNothing(s, c, i, x);
    case InsertJob(faults, maxIdFails) => if s.flush.Holding? { InsertLoses(s, faults, maxIdFails, c, i, x); }
    case Restart => RestartLoses(s, c, i);
    case DeleteJob(ids) => DeleteLosesNothing(s, ids);
    case _ =>
  }

  lemma DeleteLosesNothing(s: State, ids: set<int>)
    ensures Deleted(s, ids).status == s.status
  {
  }

  lemma AtPrefix(events: seq<Event>, c: Config, i: nat, x: Status, k: nat)
    requires c.backlogMax >= 1 && events != []
    ensures var init := events[..|events| - 1];
            LosesAt(events, c, i, x, k) <==>
              LosesAt(init, c, i, x, k) || (k == |init| && Loses(Run(init, c), events[|init|], i, c, x))
  {
    var init := events[..|events| - 1];
    assert k < |init| ==> init[..k] == events[..k] && init[k] == events[k];
    hide Run, Loses;
  }

  lemma OneMoreEvent(events: seq<Event>, c: Config, i: nat, x: Status)
    requires c.backlogMax >= 1 && events != []
    ensures var init := events[..|events| - 1];
            SomeEventLoses(events, c, i, x) <==>
              SomeEventLoses(init, c, i, x) || Loses(Run(init, c), events[|init|], i, c, x)
  {
    hide Run, Loses, LosesAt;
    var init := events[..|events| - 1];
    AtPrefix(events, c, i, x, |init|);
    forall k: nat ensures LosesAt(init, c, i, x, k) ==> LosesAt(events, c, i, x, k) {
      AtPrefix(events, c, i, x, k);
    }
    if SomeEventLoses(events, c, i, x) {
      var k: nat :| LosesAt(events, c, i, x, k);
      AtPrefix(events, c, i, x, k);
    }
  }

  /** An entry is lost with its batch exactly if at some moment it was in a batch whose job failed, and lost at exit
      exactly if at some restart it was queued or in hand. */
  lemma {:induction false} LostExactlyWhen(events: seq<Event>, c: Config, i: nat, x: Status)
    requires c.backlogMax >= 1 && (x == LostInBatch || x == LostAtExit)
    ensures Is(Run(events, c), i, x) <==> SomeEventLoses(events, c, i, x)
  {
    if events == [] {
      RunOfNone(c);
    } else {
      hide Step, Is, Loses, SomeEventLoses, PipelineSound, StorageSound, TailSound;
      var init := events[..|events| - 1];
      LostExactlyWhen(init, c, i, x);
      EveryRunIsSound(init, c);
      OneMoreEvent(events, c, i, x);
      StepLoses(Run(init, c), events[|init|], c, i, x);
    }
  }

  /** The entries lost are those some event of the run lost. */
  ghost predicate LossesEarned(events: seq<Event>, c: Config)
    requires c.backlogMax >= 1
  {
    forall i: nat ::
      && (Is(Run(events, c), i, LostInBatch) <==> SomeEventLoses(events, c, i, LostInBatch))
      && (Is(Run(events, c), i, LostAtExit) <==> SomeEventLoses(events, c, i, LostAtExit))
  }

  /** In every run every status has been earned, losses included. */
  lemma EveryStatusIsEarned(events: seq<Event>, c: Config)
    requires c.backlogMax >= 1
    ensures StatusesEarned(Run(events, c), c) && LossesEarned(events, c)
  {
    RunEarnsStatuses(events, c);
    hide Run, Is, SomeEventLoses, StatusesEarned;
    forall i: nat
      ensures Is(Run(events, c), i, LostInBatch) <==> SomeEventLoses(events, c, i, LostInBatch)
      ensures Is(Run(events, c), i, LostAtExit) <==> SomeEventLoses(events, c, i, LostAtExit)
    {
      LostExactlyWhen(events, c, i, LostInBatch);
      LostExactlyWhen(events, c, i, LostAtExit);
    }
  }

  // ── Conservation ───────────────────────────────────────────────────────────

  /** The backlog and the batch in flight are exactly the entries whose status says so, in order of arrival; a
      stored entry is a row or was vacuumed, and every row holds the values of an entry stored under its id. */
  ghost predicate PlacesAgree(s: State, c: Config) {
    && |s.queue.items| <= c.backlogMax && Ascending(InFlight(s))
    && (forall i :: 0 <= i < |s.status| ==> (s.status[i] == Queued <==> i in s.queue.items))
    && (forall i :: 0 <= i < |s.status| ==> (s.status[i] == Held <==> i in HeldEntries(s.flush)))
    && (forall i :: i in InFlight(s) ==> i < |s.status|)
    && (forall i :: 0 <= i < |s.status| && s.status[i].Stored? ==>
          s.status[i].id in s.tables.rows || s.status[i].id in s.deleted)
    && (forall id :: id in s.tables.rows ==> exists i :: RowOwned(s, c.catalog, id, i))
  }

  lemma SoundPlacesAgree(s: State, c: Config)
    requires Sound(s, c)
    ensures PlacesAgree(s, c)
  {
    var held, queued := HeldEntries(s.flush), s.queue.items;
    forall i | 0 <= i < |s.status|
      ensures (s.status[i] == Queued <==> i in queued) && (s.status[i] == Held <==> i in held)
    {
      if InFlightStatus(s.status[i]) {
        assert i in held + queued;
      }
    }
    forall i: nat | 0 <= i < |s.status| && s.status[i].Stored?
      ensures s.status[i].id in s.tables.rows || s.status[i].id in s.deleted
    {
      assert StoredSomewhere(s.tables, s.deleted, s.status[i]);
    }
  }

  /** Pipeline conservation. In every run every entry producers ever handed in has one status, its status agrees
      with the queue, the batch in flight, the table and the vacuumed ids, and it has earned it: skipped only for
      a missing required value, never stored with one missing, evicted only by a full backlog. It is lost exactly if
      the job of its batch failed, or the process ended with it in flight. With AUTOINCREMENT stored entries have
      ids increasing in order of arrival. */
  lemma EveryEntryIsInOnePlace(events: seq<Event>, c: Config)
    requires c.backlogMax >= 1
    ensures var s := Run(events, c);
            && s.arrivals == Produced(events) && |s.status| == |s.arrivals|
            && PlacesAgree(s, c) && StatusesEarned(s, c) && LossesEarned(events, c)
            && (c.catalog.autoincrement ==> StoredInOrder(s.status))
  {
    EveryRunIsSound(events, c);
    ArrivalsAreProduced(events, c);
    EveryStatusIsEarned(events, c);
    hide Run, PlacesAgree, LossesEarned;
    SoundPlacesAgree(Run(events, c), c);
  }
}
