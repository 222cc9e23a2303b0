/**
 The running service: producers, the flush task, vacuum deletes, live-tail sessions and restarts, interleaved.
 One event is one critical section, one job on the write strand, or one segment of a coroutine. Events that
 are not possible in a state leave it unchanged, so every sequence of events is a run.
 */
module Service {
  import opened IdSets
  import opened LogTable
  import opened Backlogs
  import opened Dictionary
  import W = Writer
  import opened Storage
  import opened Queries
  import opened LiveTail

  datatype Config = Config(catalog: Catalog, backlogMax: nat, sseLimit: int)

  datatype FlushTask =
    | Polling
    | Holding(batch: seq<nat>)      // drained, waiting for the write strand
    | Publishing(maxId: int)        // inserted, about to notify
    | Ended                         // stopped, or its coroutine died with an exception

  /** Queued and held entries are named by their position in arrivals. The last three fields are history:
      every entry ever added, what became of it, and every row id a vacuum removed. */
  datatype State = State(
    tables: Tables,
    lookup: Lookup,
    queue: Queue<nat>,
    flush: FlushTask,
    lastId: int,
    sessions: seq<Session>,
    arrivals: seq<LogEntry>,
    status: seq<Status>,
    deleted: set<int>)

  datatype Event =
    | AddEntry(entry: LogEntry)                        // any producer
    | Drain                                            // flush task: empty the backlog
    | InsertJob(faults: W.Faults, maxIdFails: bool)    // flush task on the write strand: Insert, then MAX(id)
    | Publish                                          // flush task: notify
    | StopFlush                                        // flush task sees the stop request
    | DeleteJob(ids: set<int>)                         // vacuum on the write strand
    | Subscribe
    | Wake(k: nat, tooSoon: bool)
    | Count(k: nat)
    | Select(k: nat, order: seq<int>)
    | FailQuery(k: nat)
    | FinishWrite(k: nat)
    | HangUp(k: nat)
    | Restart                                          // the process ends and starts again on the same file

  function Start(c: Config): State {
    State(Tables(map[], 0, []), map[], Empty(), Polling, 0, [], [], [], {})
  }

  // ── Steps ──────────────────────────────────────────────────────────────────

  /** The statuses after the entries of a batch have been given theirs. */
  function Mark(status: seq<Status>, batch: seq<nat>, marks: seq<Status>): (after: seq<Status>)
    ensures |after| == |status|
  {
    if batch == [] || |batch| != |marks| then status
    else
      var k := |batch| - 1;
      var before := Mark(status, batch[..k], marks[..k]);
      if batch[k] < |before| then before[batch[k] := marks[k]] else before
  }

  function Repeat(s: Status, n: nat): (r: seq<Status>)
    ensures |r| == n && forall i :: 0 <= i < n ==> r[i] == s
  {
    if n == 0 then [] else Repeat(s, n - 1) + [s]
  }

  function EntryAt(arrivals: seq<LogEntry>, i: nat): LogEntry {
    if i < |arrivals| then arrivals[i] else map[]
  }

  function EntriesOf(arrivals: seq<LogEntry>, batch: seq<nat>): (r: seq<LogEntry>)
    ensures |r| == |batch| && forall j :: 0 <= j < |r| ==> r[j] == EntryAt(arrivals, batch[j])
  {
    if batch == [] then []
    else EntriesOf(arrivals, batch[..|batch| - 1]) + [EntryAt(arrivals, batch[|batch| - 1])]
  }

  function StatusOf(f: W.Fate): Status {
    match f
    case Inserted(id) => Stored(id)
    case Skipped => Skipped
    case Rejected => Rejected
  }

  function StatusesOf(fates: seq<W.Fate>): (r: seq<Status>)
    ensures |r| == |fates| && forall j :: 0 <= j < |r| ==> r[j] == StatusOf(fates[j])
  {
    if fates == [] then [] else StatusesOf(fates[..|fates| - 1]) + [StatusOf(fates[|fates| - 1])]
  }

  function Accept(s: State, entry: LogEntry, c: Config): State
    requires c.backlogMax >= 1
  {
    var evicted := Backlogs.Evicted(s.queue, c.backlogMax);
    s.(queue := Added(s.queue, c.backlogMax, |s.arrivals|),
       arrivals := s.arrivals + [entry],
       status := Mark(s.status, evicted, Repeat(LiveTail.Evicted, |evicted|)) + [Queued])
  }

  function DrainBacklog(s: State): State {
    if s.queue.items == [] then s.(queue := Empty())
    else s.(queue := Empty(), flush := Holding(s.queue.items),
            status := Mark(s.status, s.queue.items, Repeat(Held, |s.queue.items|)))
  }

  ghost function RunInsert(s: State, faults: W.Faults, maxIdFails: bool, c: Config): State
    requires s.flush.Holding?
  {
    var batch := s.flush.batch;
    var next := (t: Tables) => if maxIdFails then Ended else Publishing(MaxLogId(t.rows));
    match W.InsertBatch(s.tables, s.lookup, c.catalog, EntriesOf(s.arrivals, batch), faults)
    case NothingToDo =>
      s.(flush := next(s.tables), status := Mark(s.status, batch, Repeat(NoColumns, |batch|)))
    case Committed(t, lookup, fates) =>
      s.(tables := t, lookup := lookup, flush := next(t),
         status := Mark(s.status, batch, StatusesOf(fates)))
    case Aborted(lookup) =>
      s.(lookup := lookup, flush := Ended, status := Mark(s.status, batch, Repeat(LostInBatch, |batch|)))
  }

  function Deleted(s: State, ids: set<int>): State {
    s.(tables := s.tables.(rows := s.tables.rows - ids), deleted := s.deleted + (s.tables.rows.Keys * ids))
  }

  /** The entries in flight are lost with the process; memory is rebuilt from the tables, and the notifier
      starts from the greatest id present. */
  ghost function Restarted(s: State): State {
    var inFlight := InFlight(s);
    State(s.tables, Load(s.tables.dict), Empty(), Polling, MaxLogId(s.tables.rows), [],
          s.arrivals, Mark(s.status, inFlight, Repeat(LostAtExit, |inFlight|)), s.deleted)
  }

  function HeldEntries(flush: FlushTask): seq<nat> {
    if flush.Holding? then flush.batch else []
  }

  function InFlight(s: State): seq<nat> {
    HeldEntries(s.flush) + s.queue.items
  }

  ghost function SessionStep(s: State, x: Session, e: Event, c: Config): Session {
    match e
    case Wake(_, tooSoon) => Woken(x, s.lastId, tooSoon)
    case Count(_) => Counted(x, s.tables.rows, s.status)
    case Select(_, order) =>
      if c.sseLimit >= 0 && x.phase.Selecting?
         && Enumerates(order, Visible(s.tables.rows, x.pushed, x.phase.hi))
         && NewestFirst(order, s.tables.rows, c.catalog.timestamp)
      then Selected(x, s.tables.rows, order, c.sseLimit, s.status)
      else x
    case FailQuery(_) => QueryFailed(x)
    case FinishWrite(_) => Written(x)
    case HangUp(_) => HungUp(x)
    case _ => x
  }

  predicate ForSession(e: Event) {
    e.Wake? || e.Count? || e.Select? || e.FailQuery? || e.FinishWrite? || e.HangUp?
  }

  ghost function Step(s: State, e: Event, c: Config): State
    requires c.backlogMax >= 1
  {
    if ForSession(e) then
      if e.k < |s.sessions| then s.(sessions := s.sessions[e.k := SessionStep(s, s.sessions[e.k], e, c)]) else s
    else
      match e
      case AddEntry(entry) => Accept(s, entry, c)
      case Drain => if s.flush == Polling then DrainBacklog(s) else s
      case InsertJob(faults, maxIdFails) => if s.flush.Holding? then RunInsert(s, faults, maxIdFails, c) else s
      case Publish => if s.flush.Publishing? then s.(lastId := s.flush.maxId, flush := Polling) else s
      case StopFlush => if s.flush == Polling then s.(flush := Ended) else s
      case DeleteJob(ids) => Deleted(s, ids)
      case Subscribe => s.(sessions := s.sessions + [Opened(s.lastId, s.status)])
      case Restart => Restarted(s)
  }

  ghost function Run(events: seq<Event>, c: Config): State
    requires c.backlogMax >= 1
  {
    if events == [] then Start(c) else Step(Run(events[..|events| - 1], c), events[|events| - 1], c)
  }
}
