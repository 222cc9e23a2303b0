/** What the notifier has published, and what that means for the tails it wakes. */
module Publishing {
  import opened Results
  import opened IdSets
  import opened LogTable
  import opened Backlogs
  import opened Dictionary
  import W = Writer
  import opened Storage
  import opened Aborts
  import opened Queries
  import opened LiveTail
  import opened Service
  import opened Accounting
  import opened Runs
  import opened Decoding
  import opened Survival
  import opened TailRuns

  predicate NoneAbove(rows: map<int, Row>, top: int) { forall id :: id in rows ==> id <= top }

  /** An id some entry was stored under, or 0. */
  ghost predicate WasStored(status: seq<Status>, id: int) {
    id == 0 || exists i :: 0 <= i < |status| && status[i] == Stored(id)
  }

  /** While the flush task polls or holds a batch, no row lies above the published id; while it is about to publish,
      none lies above the id it will publish. Both are ids that were stored. */
  ghost predicate Published(s: State) {
    && (s.flush == Polling || s.flush.Holding? ==> NoneAbove(s.tables.rows, s.lastId))
    && (s.flush.Publishing? ==> NoneAbove(s.tables.rows, s.flush.maxId) && WasStored(s.status, s.flush.maxId))
    && WasStored(s.status, s.lastId)
  }

  /** The greatest id present, told without MaxLogId. */
  lemma MaxLogIdIsGreatest(rows: map<int, Row>)
    ensures NoneAbove(rows, MaxLogId(rows))
    ensures if rows == map[] then MaxLogId(rows) == 0 else MaxLogId(rows) in rows
  {
    if rows.Keys != {} {
      assert MaxLogId(rows) in rows.Keys;
      forall id | id in rows ensures id <= MaxLogId(rows) {
        assert id in rows.Keys;
      }
    } else {
      assert forall id :: id in rows ==> id in rows.Keys;
    }
  }

  lemma GreatestWasStored(s: State, cat: Catalog)
    requires StorageSound(s, cat)
    ensures WasStored(s.status, MaxLogId(s.tables.rows))
  {
    hide Agrees, InStep, IdsSound, RowFor, MaxLogId;
    MaxLogIdIsGreatest(s.tables.rows);
    if s.tables.rows != map[] {
      var i :| RowOwned(s, cat, MaxLogId(s.tables.rows), i);
    }
  }

  lemma StaysStored(status: seq<Status>, after: seq<Status>, id: int)
    requires WasStored(status, id) && StoredStays(status, after)
    ensures WasStored(after, id)
  {
    if id != 0 {
      var i :| 0 <= i < |status| && status[i] == Stored(id);
      assert after[i] == Stored(id);
    }
  }

  lemma InsertPublishes(s: State, faults: W.Faults, maxIdFails: bool, c: Config)
    requires s.flush.Holding?
    ensures var after := RunInsert(s, faults, maxIdFails, c);
            && after.lastId == s.lastId
            && (after.flush == Ended || after.flush == Publishing(MaxLogId(after.tables.rows)))
  {
    hide W.InsertBatch, Mark, MaxLogId, EntriesOf;
  }

  lemma StepKeepsPublished(s: State, e: Event, c: Config)
    requires Sound(s, c) && c.backlogMax >= 1 && Published(s)
    ensures Published(Step(s, e, c))
  {
    var after := Step(s, e, c);
    StepKeepsStored(s, e, c);
    StepKeepsSound(s, e, c);
    GreatestWasStored(after, c.catalog);
    MaxLogIdIsGreatest(after.tables.rows);
    StaysStored(s.status, after.status, s.lastId);
    if s.flush.Publishing? {
      StaysStored(s.status, after.status, s.flush.maxId);
    }
    hide Sound, MaxLogId, WasStored, StoredStays, RunInsert, Step;
    if e.InsertJob? && s.flush.Holding? {
      InsertPublishes(s, e.faults, e.maxIdFails, c);
    }
    StepPublishes(s, e, c);
  }

  /** What a step does to the published id and the flush task; an insert may do more. */
  lemma StepPublishes(s: State, e: Event, c: Config)
    requires c.backlogMax >= 1
    ensures var after := Step(s, e, c);
            if e.InsertJob? && s.flush.Holding? then after == RunInsert(s, e.faults, e.maxIdFails, c)
            else if e == Publish && s.flush.Publishing? then
              after.lastId == s.flush.maxId && after.flush == Polling && after.tables == s.tables
            else if e == Restart then
              after.lastId == MaxLogId(s.tables.rows) && after.flush == Polling && after.tables == s.tables
            else
              && after.lastId == s.lastId && (forall id :: id in after.tables.rows ==> id in s.tables.rows)
              && (after.flush == s.flush || (s.flush == Polling && (after.flush.Holding? || after.flush == Ended)))
  {
    hide Mark, SessionStep, Load, MaxLogId, RunInsert, Accept, Repeat;
    AcceptKeepsTables(s, e, c);
  }

  lemma AcceptKeepsTables(s: State, e: Event, c: Config)
    requires c.backlogMax >= 1
    ensures e.AddEntry? ==>
              var after := Step(s, e, c);
              after.tables == s.tables && after.flush == s.flush && after.lastId == s.lastId
  {
    hide Mark, Repeat;
  }

  /** In every run the notifier has published every row, but for those of a batch about to be published. */
  lemma {:induction false} EveryRowIsPublished(events: seq<Event>, c: Config)
    requires c.backlogMax >= 1
    ensures Published(Run(events, c))
  {
    hide Step;
    if events != [] {
      EveryRowIsPublished(events[..|events| - 1], c);
      EveryRunIsSound(events[..|events| - 1], c);
      StepKeepsPublished(Run(events[..|events| - 1], c), events[|events| - 1], c);
      hide Published, Sound;
    }
  }

  /** Starting publishes the greatest id present, or 0 where there is none. */
  lemma RestartPublishesGreatest(events: seq<Event>, c: Config)
    requires c.backlogMax >= 1
    ensures var s := Run(events + [Restart], c);
            && s.tables == Run(events, c).tables && NoneAbove(s.tables.rows, s.lastId)
            && if s.tables.rows == map[] then s.lastId == 0 else s.lastId in s.tables.rows
  {
    hide Run, Step;
    RunOne(c, events, Restart, Run(events, c));
    RestartStep(Run(events, c), c);
    MaxLogIdIsGreatest(Run(events, c).tables.rows);
  }

  // ── The flush task keeps going ─────────────────────────────────────────────

  /** The event ends the flush task: it is stopped between two batches, or its job throws. */
  ghost predicate Ends(s: State, e: Event, c: Config) {
    || (e == StopFlush && s.flush == Polling)
    || (&& e.InsertJob? && s.flush.Holding?
        && (e.maxIdFails || Fails(s.lookup, c.catalog, EntriesOf(s.arrivals, s.flush.batch), e.faults)))
  }

  ghost predicate EndsAt(events: seq<Event>, c: Config, k: int)
    requires c.backlogMax >= 1
  {
    0 <= k < |events| && Ends(Run(events[..k], c), events[k], c) && Restart !in events[k + 1..]
  }

  lemma EndsExactlyWhen(s: State, e: Event, c: Config)
    requires c.backlogMax >= 1 && s.flush != Ended
    ensures Step(s, e, c).flush == Ended <==> Ends(s, e, c)
  {
    hide W.InsertBatch, Mark, EntriesOf, MaxLogId, Load, SessionStep, Fails, Added, Repeat;
    if e.InsertJob? && s.flush.Holding? {
      AbortsExactlyWhen(s.tables, s.lookup, c.catalog, EntriesOf(s.arrivals, s.flush.batch), e.faults);
    }
  }

  lemma EndedStays(s: State, e: Event, c: Config)
    requires c.backlogMax >= 1 && s.flush == Ended
    ensures Step(s, e, c).flush == (if e == Restart then Polling else Ended)
  {
    hide Mark, EntriesOf, MaxLogId, Load, SessionStep, Added, Repeat;
  }

  lemma RestartPolls(s: State, c: Config)
    requires c.backlogMax >= 1
    ensures Step(s, Restart, c).flush == Polling
  {
    hide Mark, MaxLogId, Load;
  }

  /** In every run the flush task has ended if and only if, since the last restart, it was stopped between two batches
      or a job of its threw. */
  lemma {:induction false} FlushHasEndedExactlyWhen(events: seq<Event>, c: Config)
    requires c.backlogMax >= 1
    ensures Run(events, c).flush == Ended <==> exists k :: EndsAt(events, c, k)
  {
    hide Step, Ends;
    if events == [] {
      RunOfNone(c);
    } else {
      var n := |events| - 1;
      var s, e := Run(events[..n], c), events[n];
      FlushHasEndedExactlyWhen(events[..n], c);
      hide Run;
      RunStep(events, c, n);
      assert events[..|events|] == events;
      if e == Restart {
        RestartPolls(s, c);
        EndKinds(s, e, c);
        forall k ensures !EndsAt(events, c, k) {
          assert 0 <= k < n ==> events[k + 1..][n - k - 1] == Restart;
        }
      } else {
        if s.flush == Ended {
          EndedStays(s, e, c);
        } else {
          EndsExactlyWhen(s, e, c);
        }
        forall k: int | 0 <= k < n ensures EndsAt(events, c, k) <==> EndsAt(events[..n], c, k) {
          assert events[..n][..k] == events[..k] && events[k + 1..] == events[..n][k + 1..] + [e];
        }
        assert events[n + 1..] == [];
        assert EndsAt(events, c, n) <==> Ends(s, e, c);
        if s.flush == Ended {
          var k :| EndsAt(events[..n], c, k);
          assert EndsAt(events, c, k);
        }
      }
    }
  }

  lemma EndKinds(s: State, e: Event, c: Config)
    ensures Ends(s, e, c) ==> e == StopFlush || e.InsertJob?
  {
  }

  /** Nothing failing, an entry that lacks nothing and arrives at an idle service is stored under an id, with the row
      of its values, and the id is published: the service is idle again, and every waiting tail has something new. */
  lemma EntryIsStoredAndPublished(events: seq<Event>, c: Config, entry: LogEntry) returns (id: int)
    requires c.backlogMax >= 1 && Idle(Run(events, c))
    requires c.catalog.DataColumns() != [] && !LacksRequired(entry, c.catalog.DataColumns())
    ensures var s := Run(events, c);
            var after := Run(events + Intake(s, c, entry) + [Publish], c);
            && Idle(after) && after.arrivals == s.arrivals + [entry]
            && after.status == s.status + [Stored(id)] && RowOwned(after, c.catalog, id, |s.status|)
            && id <= after.lastId
  {
    hide Run, Step, Sound, RowFor, LastUnder, LacksRequired, Knows, TextsOf, Extends, Intake;
    var s := Run(events, c);
    var taken := Run(events + Intake(s, c, entry), c);
    IntakeRuns(events, s, c, entry);
    RunOne(c, events + Intake(s, c, entry), Publish, taken);
    PublishStep(taken, c);
    EveryRowIsPublished(events + Intake(s, c, entry) + [Publish], c);
    id := taken.status[|s.status|].id;
    assert taken.status == s.status + [Stored(id)];
  }

  lemma PublishStep(s: State, c: Config)
    requires c.backlogMax >= 1 && s.flush.Publishing?
    ensures Step(s, Publish, c) == s.(lastId := s.flush.maxId, flush := Polling)
  {
  }

  // ── Tails start at what is published ───────────────────────────────────────

  lemma {:induction false} StartStays(before: seq<Event>, more: seq<Event>, c: Config, k: nat)
    requires c.backlogMax >= 1 && Restart !in more && k < |Run(before, c).sessions|
    ensures k < |Run(before + more, c).sessions|
    ensures Run(before + more, c).sessions[k].start == Run(before, c).sessions[k].start
  {
    hide Run, Step, SessionStep;
    if more == [] {
      assert before + more == before;
    } else {
      var init, e := more[..|more| - 1], more[|more| - 1];
      StartStays(before, init, c, k);
      assert before + more == before + init + [e];
      var s := Run(before + init, c);
      RunOne(c, before + init, e, s);
      StepSessions(s, e, c, k);
      EveryRunIsSound(before + init, c);
      SessionIsSound(s, c, k);
      if ForSession(e) && e.k == k {
        SessionStepMovesCursor(s, s.sessions[k], e, c);
      }
    }
  }

  lemma SessionIsSound(s: State, c: Config, k: nat)
    requires Sound(s, c) && k < |s.sessions|
    ensures SessionSound(s.sessions[k], c.sseLimit)
  {
    assert SessionInvariant(s.sessions[k], s, c);
  }

  /** What a session reads lies above its start. */
  lemma WindowsLieAboveStart(x: Session, limit: int, m: nat, id: int)
    requires SessionSound(x, limit) && m < |ReadWindows(x)|
    requires id in ReadWindows(x)[m].visible || id in ReadWindows(x)[m].sent
    ensures x.start < id
  {
    hide Chain;
    ChainStartsBelow(x.start, x.windows, x.pushed);
    if m < |x.windows| {
      ChainBounds(x.start, x.windows, x.pushed, m);
      assert WindowSound(x.windows[m], limit);
    }
  }

  /** A tail opened while the flush task polls or holds a batch starts at or above every row then present, and shows
      none of them, whatever happens afterwards. */
  lemma NewTailSkipsWhatIsThere(before: seq<Event>, after: seq<Event>, c: Config, id: int)
    requires c.backlogMax >= 1 && Restart !in after
    requires Run(before, c).flush == Polling || Run(before, c).flush.Holding?
    requires id in Run(before, c).tables.rows
    ensures var k, s := |Run(before, c).sessions|, Run(before + [Subscribe] + after, c);
            && k < |s.sessions| && id <= s.sessions[k].start
            && forall m :: 0 <= m < |ReadWindows(s.sessions[k])| ==>
                 id !in ReadWindows(s.sessions[k])[m].visible && id !in ReadWindows(s.sessions[k])[m].sent
  {
    hide Run, Step, Chain, WindowSound;
    var s, k := Run(before, c), |Run(before, c).sessions|;
    EveryRowIsPublished(before, c);
    RunOne(c, before, Subscribe, s);
    SubscribeOpens(s, c);
    StartStays(before + [Subscribe], after, c, k);
    EveryRunIsSound(before + [Subscribe] + after, c);
    var x := Run(before + [Subscribe] + after, c).sessions[k];
    SessionIsSound(Run(before + [Subscribe] + after, c), c, k);
    hide Sound, SessionSound;
    forall m | 0 <= m < |ReadWindows(x)| ensures id !in ReadWindows(x)[m].visible && id !in ReadWindows(x)[m].sent {
      if id in ReadWindows(x)[m].visible || id in ReadWindows(x)[m].sent {
        WindowsLieAboveStart(x, c.sseLimit, m, id);
      }
    }
  }

  lemma SubscribeOpens(s: State, c: Config)
    requires c.backlogMax >= 1
    ensures Step(s, Subscribe, c) == s.(sessions := s.sessions + [Opened(s.lastId, s.status)])
  {
  }

  /** So right after a restart: a tail opened then shows no row that was there before. */
  lemma TailAfterRestartSkipsOldRows(before: seq<Event>, after: seq<Event>, c: Config, id: int)
    requires c.backlogMax >= 1 && Restart !in after && id in Run(before, c).tables.rows
    ensures var s := Run(before + [Restart] + [Subscribe] + after, c);
            && |s.sessions| >= 1 && id <= s.sessions[0].start
            && forall m :: 0 <= m < |ReadWindows(s.sessions[0])| ==>
                 id !in ReadWindows(s.sessions[0])[m].visible && id !in ReadWindows(s.sessions[0])[m].sent
  {
    hide Run, Step, ReadWindows;
    RunOne(c, before, Restart, Run(before, c));
    RestartStep(Run(before, c), c);
    NewTailSkipsWhatIsThere(before + [Restart], after, c, id);
  }

  // ── A tail that is woken catches up ────────────────────────────────────────

  /** The wake-up, the two queries and the write of one window. */
  function Turn(k: nat, order: seq<int>): seq<Event> {
    [Wake(k, false)] + [Count(k)] + [Select(k, order)] + [FinishWrite(k)]
  }

  /** Nothing failing, a waiting tail with something new is afterwards waiting at the published id, and has sent of the
      rows between as many as its limit allows, in the order the database lists them. */
  lemma WokenTailCatchesUp(events: seq<Event>, c: Config, k: nat, order: seq<int>)
    requires c.backlogMax >= 1 && c.sseLimit >= 0 && k < |Run(events, c).sessions|
    requires var s := Run(events, c); var x := s.sessions[k];
             && x.phase == Waiting && x.pushed < s.lastId
             && Enumerates(order, Visible(s.tables.rows, x.pushed, s.lastId))
             && NewestFirst(order, s.tables.rows, c.catalog.timestamp)
    ensures var s, after := Run(events, c), Run(events + Turn(k, order), c);
            && k < |after.sessions|
            && var x, y := s.sessions[k], after.sessions[k];
               && y.phase == Waiting && y.pushed == s.lastId
               && |y.windows| == |x.windows| + 1
               && var w := y.windows[|x.windows|];
                  && w.lo == x.pushed && w.hi == s.lastId
                  && (forall id :: id in w.visible <==> id in s.tables.rows && x.pushed < id <= s.lastId)
                  && |w.sent| == (if |order| < c.sseLimit then |order| else c.sseLimit)
                  && forall i :: 0 <= i < |w.sent| ==> w.sent[i] == order[i]
  {
    hide Run, Step;
    var s := Run(events, c);
    var s1 := Step(s, Wake(k, false), c);
    var s2 := Step(s1, Count(k), c);
    var s3 := Step(s2, Select(k, order), c);
    RunOne(c, events, Wake(k, false), s);
    RunOne(c, events + [Wake(k, false)], Count(k), s1);
    RunOne(c, events + [Wake(k, false)] + [Count(k)], Select(k, order), s2);
    RunOne(c, events + [Wake(k, false)] + [Count(k)] + [Select(k, order)], FinishWrite(k), s3);
    assert events + Turn(k, order)
        == events + [Wake(k, false)] + [Count(k)] + [Select(k, order)] + [FinishWrite(k)];
    TurnSteps(s, c, k, order);
  }

  lemma SessionStepOf(s: State, e: Event, c: Config)
    requires c.backlogMax >= 1 && ForSession(e) && e.k < |s.sessions|
    ensures Step(s, e, c) == s.(sessions := s.sessions[e.k := SessionStep(s, s.sessions[e.k], e, c)])
  {
  }

  lemma TurnSteps(s: State, c: Config, k: nat, order: seq<int>)
    requires c.backlogMax >= 1 && c.sseLimit >= 0 && k < |s.sessions|
    requires var x := s.sessions[k];
             && x.phase == Waiting && x.pushed < s.lastId
             && Enumerates(order, Visible(s.tables.rows, x.pushed, s.lastId))
             && NewestFirst(order, s.tables.rows, c.catalog.timestamp)
    ensures var x := s.sessions[k];
            var s1 := Step(s, Wake(k, false), c);
            var s2 := Step(s1, Count(k), c);
            var s3 := Step(s2, Select(k, order), c);
            var after := Step(s3, FinishWrite(k), c);
            var w := Window(x.pushed, s.lastId, Visible(s.tables.rows, x.pushed, s.lastId),
                            Slice(order, c.sseLimit, 0), s.status);
            after == s.(sessions := s.sessions[k := x.(pushed := s.lastId, windows := x.windows + [w])])
  {
    hide Step, NewestFirst, Visible;
    var x := s.sessions[k];
    SessionStepOf(s, Wake(k, false), c);
    var s1 := Step(s, Wake(k, false), c);
    SessionStepOf(s1, Count(k), c);
    var s2 := Step(s1, Count(k), c);
    SessionStepOf(s2, Select(k, order), c);
    var s3 := Step(s2, Select(k, order), c);
    SessionStepOf(s3, FinishWrite(k), c);
    if Visible(s.tables.rows, x.pushed, s.lastId) == {} {
      EnumerationSize(order, {});
    }
  }

  /** A window with rows counts as read only once its write has finished: until then cursor and windows stay. */
  lemma RowsCountOnceWritten(events: seq<Event>, e: Event, c: Config, k: nat)
    requires c.backlogMax >= 1 && e != Restart && k < |Run(events, c).sessions|
    ensures var s, after := Run(events, c), Run(events + [e], c);
            && k < |after.sessions|
            && var x, y := s.sessions[k], after.sessions[k];
               || (y.windows == x.windows && y.pushed == x.pushed)
               || (&& |y.windows| == |x.windows| + 1 && y.windows[..|x.windows|] == x.windows
                   && var w := y.windows[|x.windows|];
                      && y.pushed == w.hi && y.phase == Waiting
                      && (w.sent == [] || (e == FinishWrite(k) && x.phase == Writing(w))))
  {
    hide Run, Step;
    RunOne(c, events, e, Run(events, c));
    StepSessions(Run(events, c), e, c, k);
    hide Enumerates, NewestFirst, Visible, Slice;
  }

  /** A query that fails leaves the tail waiting where it was, so the next wake-up takes the window again. */
  lemma FailedQueryIsRetried(events: seq<Event>, c: Config, k: nat)
    requires c.backlogMax >= 1 && k < |Run(events, c).sessions|
    requires Run(events, c).sessions[k].phase.Counting? || Run(events, c).sessions[k].phase.Selecting?
    ensures var after := Run(events + [FailQuery(k)], c);
            after == Run(events, c).(sessions := after.sessions)
            && |after.sessions| == |Run(events, c).sessions|
            && after.sessions[k] == Run(events, c).sessions[k].(phase := Waiting)
            && forall j :: 0 <= j < |after.sessions| && j != k ==> after.sessions[j] == Run(events, c).sessions[j]
  {
    hide Run, Step;
    RunOne(c, events, FailQuery(k), Run(events, c));
    SessionStepOf(Run(events, c), FailQuery(k), c);
  }

  lemma ClosedIsLeft(s: State, x: Session, e: Event, c: Config)
    requires x.phase == Closed
    ensures SessionStep(s, x, e, c) == x
  {
    hide Enumerates, NewestFirst, Visible;
  }

  lemma {:induction false} ClosedStays(before: seq<Event>, more: seq<Event>, c: Config, k: nat)
    requires c.backlogMax >= 1 && Restart !in more && k < |Run(before, c).sessions|
    requires Run(before, c).sessions[k].phase == Closed
    ensures k < |Run(before + more, c).sessions|
    ensures Run(before + more, c).sessions[k] == Run(before, c).sessions[k]
  {
    hide Run, Step, SessionStep;
    if more == [] {
      assert before + more == before;
    } else {
      var init, e := more[..|more| - 1], more[|more| - 1];
      ClosedStays(before, init, c, k);
      assert before + more == before + init + [e];
      var s := Run(before + init, c);
      RunOne(c, before + init, e, s);
      StepSessions(s, e, c, k);
      ClosedIsLeft(s, s.sessions[k], e, c);
    }
  }

  /** A tail whose client hangs up is over at once, with what it had finished writing, and stays so. */
  lemma HungUpTailIsOver(before: seq<Event>, more: seq<Event>, c: Config, k: nat)
    requires c.backlogMax >= 1 && Restart !in more && k < |Run(before, c).sessions|
    ensures var s := Run(before + [HangUp(k)] + more, c);
            k < |s.sessions| && s.sessions[k] == Run(before, c).sessions[k].(phase := Closed)
  {
    hide Run, Step;
    RunOne(c, before, HangUp(k), Run(before, c));
    SessionStepOf(Run(before, c), HangUp(k), c);
    ClosedStays(before + [HangUp(k)], more, c, k);
  }
}
