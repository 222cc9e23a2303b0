/**
 The notifier and the flush task, as objects: every method is one uninterrupted segment, and its contract says it
 is exactly the step of that name in Service. Entries are named by their position in arrivals.
 */
module Flushing {
  import opened IdSets
  import opened LogTable
  import opened Backlogs
  import opened Dictionary
  import W = Writer
  import opened Storage
  import opened LiveTail
  import opened Service
  import opened Runs
  import opened Conservation

  datatype Subscription = Subscription(number: nat)

  /** The subscriptions without this one. */
  function Without(subs: seq<Subscription>, sub: Subscription): seq<Subscription> {
    if subs == [] then []
    else Without(subs[..|subs| - 1], sub) + (if subs[|subs| - 1] == sub then [] else [subs[|subs| - 1]])
  }

  lemma {:induction false} WithoutKeepsTheOthers(subs: seq<Subscription>, sub: Subscription, other: Subscription)
    ensures other in Without(subs, sub) <==> other in subs && other != sub
  {
    if subs != [] {
      WithoutKeepsTheOthers(subs[..|subs| - 1], sub, other);
      assert subs == subs[..|subs| - 1] + [subs[|subs| - 1]];
    }
  }

  lemma {:induction false} WithoutInOrder(a: seq<Subscription>, b: seq<Subscription>, sub: Subscription)
    ensures Without(a + b, sub) == Without(a, sub) + Without(b, sub)
  {
    if b == [] {
      assert a + b == a;
    } else {
      assert (a + b)[..|a + b| - 1] == a + b[..|b| - 1];
      WithoutInOrder(a, b[..|b| - 1], sub);
    }
  }

  class LogNotifier {
    var lastId: int
    var subs: seq<Subscription>

    constructor ()
      ensures lastId == 0 && subs == []
    {
      lastId, subs := 0, [];
    }

    method Subscribe(sub: Subscription)
      modifies this`subs
      ensures subs == old(subs) + [sub]
    {
      subs := subs + [sub];
    }

    method Unsubscribe(sub: Subscription)
      modifies this`subs
      ensures subs == Without(old(subs), sub)
    {
      var kept := [];
      for k := 0 to |subs|
        invariant subs == old(subs) && kept == Without(subs[..k], sub)
      {
        assert subs[..k + 1][..k] == subs[..k];
        if subs[k] != sub {
          kept := kept + [subs[k]];
        }
      }
      assert subs[..|subs|] == subs;
      subs := kept;
    }

    /** Publishes the id and cancels the timer of every subscriber. */
    method Notify(id: int) returns (cancelled: set<Subscription>)
      modifies this`lastId
      ensures lastId == id && forall sub :: sub in cancelled <==> sub in subs
    {
      lastId := id;
      cancelled := {};
      for k := 0 to |subs|
        invariant lastId == id && forall sub :: sub in cancelled <==> sub in subs[..k]
      {
        assert subs[..k + 1] == subs[..k] + [subs[k]];
        cancelled := cancelled + {subs[k]};
      }
      assert subs[..|subs|] == subs;
    }
  }

  /** What the flush task meets in one round of its loop: what others do before it looks at the stop request,
      before its job runs on the write strand, and before it publishes. */
  datatype Turn = Turn(before: seq<Event>, stop: bool, during: seq<Event>, faults: W.Faults, maxIdFails: bool,
        meanwhile: seq<Event>)

  lemma RunMore(events: seq<Event>, e: Event, c: Config)
    requires c.backlogMax >= 1
    ensures Run(events + [e], c) == Step(Run(events, c), e, c)
  {
    assert (events + [e])[..|events|] == events;
  }

  class FlushBacklogTask {
    const config: Config
    const backlog: Backlog<nat>
    const db: W.WriterDatabase
    const notifier: LogNotifier
    var phase: FlushTask
    var arrivals: seq<LogEntry>
    ghost var sessions: seq<Session>
    ghost var status: seq<Status>
    ghost var deleted: set<int>
    ghost var trace: seq<Event>        // every step of the service so far

    /** A process starting on the file that a run so far has left: memory is rebuilt from the tables, and the
        notifier starts from the greatest id present. */
    constructor (config: Config, tables: Tables, arrivals: seq<LogEntry>, ghost history: seq<Event>)
      requires config.backlogMax >= 1
      requires tables == Run(history, config).tables && arrivals == Run(history, config).arrivals
      ensures Valid() && this.config == config && trace == history + [Event.Restart] && phase == Polling
      ensures Now() == Step(Run(history, config), Event.Restart, config)
    {
      hide Run, Step, Sound, Mark, Load, MaxLogId;
      ghost var after := Restarted(Run(history, config));
      this.config, this.arrivals, phase := config, arrivals, Polling;
      this.sessions, this.status, this.deleted := [], after.status, after.deleted;
      trace := history + [Event.Restart];
      backlog := new Backlog<nat>(config.backlogMax);
      db := new W.WriterDatabase(config.catalog, tables);
      notifier := new LogNotifier();
      new;
      var maxId := GetMaxLogId(db.tables.rows);
      var cancelled := notifier.Notify(maxId);
      RunMore(history, Event.Restart, config);
      EveryRunIsSound(trace, config);
      RestartStep(Run(history, config), config);
    }

    ghost predicate Consistent()
      reads this, backlog, db
    {
      config.backlogMax >= 1 && backlog.maxSize == config.backlogMax && db.catalog == config.catalog
    }

    /** The objects together are in a state of a run of the service, and a sound one. */
    ghost predicate Valid()
      reads this, backlog, db, db.dictionary, notifier
    {
      Consistent() && Now() == Run(trace, config) && Sound(Now(), config)
    }

    ghost function Now(): State
      reads this, backlog, db, db.dictionary, notifier
    {
      State(db.tables, db.dictionary.lookup, backlog.Contents(), phase, notifier.lastId, sessions, arrivals, status,
            deleted)
    }

    ghost method Record(was: State, e: Event)
      requires Consistent() && was == Run(trace, config) && Now() == Step(was, e, config)
      modifies this`trace
      ensures Valid() && trace == old(trace) + [e]
    {
      trace := trace + [e];
      RunMore(old(trace), e, config);
      EveryRunIsSound(trace, config);
      hide Run, Step, Sound;
    }

    // ── Steps ──────────────────────────────────────────────────────────────

    method AddEntry(entry: LogEntry) returns (dropped: bool)
      requires Valid()
      modifies this, backlog
      ensures Valid() && Now() == Step(old(Now()), Event.AddEntry(entry), config) && phase == old(phase)
      ensures arrivals == old(arrivals) + [entry]
    {
      hide Run, Sound;
      ghost var was := Now();
      ghost var evicted := Backlogs.Evicted(backlog.Contents(), config.backlogMax);
      dropped := backlog.AddEntry(|arrivals|);
      arrivals := arrivals + [entry];
      status := Mark(status, evicted, Repeat(LiveTail.Evicted, |evicted|)) + [Queued];
      Record(was, Event.AddEntry(entry));
    }

    method Drain()
      requires Valid() && phase == Polling
      modifies this, backlog
      ensures Valid() && Now() == Step(old(Now()), Event.Drain, config) && (phase == Polling || phase.Holding?)
      ensures arrivals == old(arrivals) && backlog.Contents() == Empty()
    {
      hide Run, Sound;
      ghost var was := Now();
      var logs := backlog.FlushAll();
      if logs != [] {
        phase := Holding(logs);
        status := Mark(status, logs, Repeat(Held, |logs|));
      }
      Record(was, Event.Drain);
    }

    /** The job on the write strand. An exception from either statement ends the task. */
    method InsertJob(faults: W.Faults, maxIdFails: bool)
      requires Valid() && phase.Holding?
      modifies this, db, db.dictionary
      ensures Valid() && Now() == Step(old(Now()), Event.InsertJob(faults, maxIdFails), config)
      ensures (phase == Ended || phase.Publishing?) && arrivals == old(arrivals)
    {
      hide Run, Sound, W.InsertBatch, Mark, EntriesOf;
      ghost var was := Now();
      var batch := phase.batch;
      var count, fates := db.Insert(EntriesOf(arrivals, batch), faults);
      status := Mark(status, batch, InsertMarks(was, faults, batch, fates));
      if count.Error? || maxIdFails {
        phase := Ended;
      } else {
        var maxId := GetMaxLogId(db.tables.rows);
        phase := Publishing(maxId);
      }
      Record(was, Event.InsertJob(faults, maxIdFails));
    }

    /** The new statuses of a batch, by what Insert made of it. */
    ghost function InsertMarks(was: State, faults: W.Faults, batch: seq<nat>, fates: seq<W.Fate>): seq<Status> {
      match W.InsertBatch(was.tables, was.lookup, config.catalog, EntriesOf(was.arrivals, batch), faults)
      case NothingToDo => Repeat(NoColumns, |batch|)
      case Committed(_, _, _) => StatusesOf(fates)
      case Aborted(_) => Repeat(LostInBatch, |batch|)
    }

    method Publish() returns (cancelled: set<Subscription>)
      requires Valid() && phase.Publishing?
      modifies this, notifier
      ensures Valid() && Now() == Step(old(Now()), Event.Publish, config) && phase == Polling
            && arrivals == old(arrivals)
      ensures forall sub :: sub in cancelled <==> sub in notifier.subs
    {
      hide Run, Sound;
      ghost var was := Now();
      cancelled := notifier.Notify(phase.maxId);
      phase := Polling;
      Record(was, Event.Publish);
    }

    method Stop()
      requires Valid() && phase == Polling
      modifies this
      ensures Valid() && Now() == Step(old(Now()), StopFlush, config) && phase == Ended && arrivals == old(arrivals)
    {
      hide Run, Sound;
      ghost var was := Now();
      phase := Ended;
      Record(was, StopFlush);
    }

    /** A vacuum job on the write strand. */
    method DeleteRows(ids: set<int>)
      requires Valid()
      modifies this, db
      ensures Valid() && Now() == Step(old(Now()), DeleteJob(ids), config) && phase == old(phase)
            && arrivals == old(arrivals)
    {
      hide Run, Sound;
      ghost var was := Now();
      deleted := deleted + (db.tables.rows.Keys * ids);
      db.tables := db.tables.(rows := db.tables.rows - ids);
      Record(was, DeleteJob(ids));
    }

    ghost method SessionMoves(e: Event)
      requires Valid() && (e == Subscribe || ForSession(e))
      modifies this`sessions, this`trace
      ensures Valid() && Now() == Step(old(Now()), e, config)
    {
      hide Run, Sound, SessionStep;
      var was := Now();
      sessions := Step(was, e, config).sessions;
      Record(was, e);
    }

    // ── The loop ───────────────────────────────────────────────────────────

    method LetOthersRun(events: seq<Event>)
      requires Valid()
      modifies this, backlog, db
      ensures Valid() && phase == old(phase) && arrivals == old(arrivals) + Produced(events)
    {
      hide Run, Sound, Step;
      assert arrivals + [] == arrivals;
      for k := 0 to |events|
        invariant Valid() && phase == old(phase) && arrivals == old(arrivals) + Produced(events[..k])
      {
        assert events[..k + 1][..k] == events[..k];
        var e := events[k];
        if e.AddEntry? {
          var dropped := AddEntry(e.entry);
        } else if e.DeleteJob? {
          DeleteRows(e.ids);
        } else if e == Subscribe || ForSession(e) {
          SessionMoves(e);
        }
      }
      assert events[..|events|] == events;
    }

    /** The task's loop: poll until told to stop, drain, insert, publish. However producers, vacuum and sessions
        interleave and whatever fails, the service stays in a sound state of a run, every entry handed in is in
        the one place its status says for a reason, and none is left in the task's hands. */
    method RunUntilStopped(turns: seq<Turn>)
      requires Valid() && phase == Polling
      modifies this, backlog, db, db.dictionary, notifier
      ensures Valid() && (phase == Polling || phase == Ended)
      ensures PlacesAgree(Now(), config) && StatusesEarned(Now(), config) && LossesEarned(trace, config)
      ensures forall i :: 0 <= i < |status| ==> status[i] != Held
    {
      hide Run, Sound, Step;
      var round := 0;
      while round < |turns| && phase == Polling
        invariant 0 <= round <= |turns| && Valid() && (phase == Polling || phase == Ended)
      {
        var turn := turns[round];
        round := round + 1;
        LetOthersRun(turn.before);
        if turn.stop {
          Stop();
          break;
        }
        Drain();
        if phase == Polling {
          continue;
        }
        LetOthersRun(turn.during);
        InsertJob(turn.faults, turn.maxIdFails);
        if phase == Ended {
          break;
        }
        LetOthersRun(turn.meanwhile);
        var cancelled := Publish();
      }
      EveryEntryIsInOnePlace(trace, config);
    }
  }
}
