/** The frontend's live log buffer at the other end of a live-tail session. */
module LiveConsole {
  import opened IdSets
  import opened LogTable
  import opened Sequences
  import opened Backlogs
  import opened Dictionary
  import W = Writer
  import opened Queries
  import opened LiveTail
  import opened Service
  import opened Accounting
  import opened Runs

  function Reversed<T>(s: seq<T>): (r: seq<T>)
    ensures |r| == |s| && forall k :: 0 <= k < |s| ==> r[k] == s[|s| - 1 - k]
  {
    seq(|s|, k requires 0 <= k < |s| => s[|s| - 1 - k])
  }

  /** JavaScript's s.slice(from). */
  function JsSlice<T>(s: seq<T>, from: int): seq<T> {
    var start := if from < 0 then (if |s| + from < 0 then 0 else |s| + from) else if from < |s| then from else |s|;
    s[start..]
  }

  function Received<T>(buffer: seq<T>, incoming: seq<T>, maxLogs: int): seq<T> {
    if incoming == [] then buffer else JsSlice(buffer + Reversed(incoming), -maxLogs)
  }

  function Shown<T>(messages: seq<seq<T>>, maxLogs: int): seq<T> {
    if messages == [] then []
    else Received(Shown(messages[..|messages| - 1], maxLogs), messages[|messages| - 1], maxLogs)
  }

  /** Everything received, oldest first. */
  function Oldest<T>(messages: seq<seq<T>>): seq<T> {
    if messages == [] then [] else Oldest(messages[..|messages| - 1]) + Reversed(messages[|messages| - 1])
  }

  datatype ConsoleEvent<T> = Message(incoming: seq<T>) | Clear

  /** The buffer after messages and clears. */
  function ShownAfter<T>(events: seq<ConsoleEvent<T>>, maxLogs: int): seq<T> {
    if events == [] then []
    else
      match events[|events| - 1]
      case Message(incoming) => Received(ShownAfter(events[..|events| - 1], maxLogs), incoming, maxLogs)
      case Clear => []
  }

  /** The messages since the last clear. */
  function SinceClear<T>(events: seq<ConsoleEvent<T>>): seq<seq<T>> {
    if events == [] then []
    else
      match events[|events| - 1]
      case Message(incoming) => SinceClear(events[..|events| - 1]) + [incoming]
      case Clear => []
  }

  class LiveLogStream<T(==)> {
    const maxLogs: int
    var buffer: seq<T>

    constructor (maxLogs: int)
      ensures this.maxLogs == maxLogs && buffer == []
    {
      this.maxLogs, buffer := maxLogs, [];
    }

    method OnMessage(incoming: seq<T>)
      modifies this
      ensures buffer == Received(old(buffer), incoming, maxLogs)
    {
      if |incoming| > 0 {
        var ascending := Reversed(incoming);
        buffer := JsSlice(buffer + ascending, -maxLogs);
      }
    }

    method ClearLogs()
      modifies this
      ensures buffer == []
    {
      buffer := [];
    }
  }

  // ── What the buffer holds ──────────────────────────────────────────────────

  lemma {:induction false} ShownIsNewest<T>(messages: seq<seq<T>>, maxLogs: int)
    requires maxLogs > 0
    ensures Shown(messages, maxLogs) == LastN(Oldest(messages), maxLogs)
  {
    if messages != [] {
      var k := |messages| - 1;
      ShownIsNewest(messages[..k], maxLogs);
      var all, last := Oldest(messages[..k]), Reversed(messages[k]);
      if messages[k] == [] {
        assert all + last == all;
      } else {
        NewestOfNewest(all, last, maxLogs);
      }
    }
  }

  lemma NewestOfNewest<T>(all: seq<T>, last: seq<T>, n: int)
    requires n > 0
    ensures JsSlice(LastN(all, n) + last, -n) == LastN(all + last, n)
  {
    if |all| > n {
      assert LastN(all, n) + last == (all + last)[|all| - n..];
    }
  }

  /** What was received before a clear never comes back: the buffer is that of the messages since, the newest maxLogs
      records of them. */
  lemma {:induction false} ClearStartsOver<T>(events: seq<ConsoleEvent<T>>, maxLogs: int)
    ensures ShownAfter(events, maxLogs) == Shown(SinceClear(events), maxLogs)
    ensures maxLogs > 0 ==> ShownAfter(events, maxLogs) == LastN(Oldest(SinceClear(events)), maxLogs)
  {
    if events != [] {
      var k := |events| - 1;
      ClearStartsOver(events[..k], maxLogs);
      if events[k].Message? {
        assert SinceClear(events)[..|SinceClear(events)| - 1] == SinceClear(events[..k]);
      }
    }
    if maxLogs > 0 {
      ShownIsNewest(SinceClear(events), maxLogs);
    }
  }

  function AtLeastZero(n: int): nat { if n < 0 then 0 else n }

  ghost predicate ShowsNewest(maxLogs: int) {
    forall messages: seq<seq<int>> :: Shown(messages, maxLogs) == LastN(Oldest(messages), AtLeastZero(maxLogs))
  }

  /** The buffer holds the newest maxLogs records for every stream of messages exactly when maxLogs is positive: with
      0 it keeps everything, and below 0 it keeps part of a message longer than that. */
  lemma ShowsNewestExactlyWhenPositive(maxLogs: int)
    ensures ShowsNewest(maxLogs) <==> maxLogs > 0
    ensures forall messages: seq<seq<int>> :: Shown(messages, 0) == Oldest(messages)
  {
    forall messages: seq<seq<int>> ensures Shown(messages, 0) == Oldest(messages) {
      ZeroKeepsAll(messages);
    }
    if maxLogs > 0 {
      forall messages: seq<seq<int>> ensures Shown(messages, maxLogs) == LastN(Oldest(messages), maxLogs) {
        ShownIsNewest(messages, maxLogs);
      }
    } else {
      var message := seq(1 - maxLogs, i => 7);
      OneMessage(message, maxLogs);
      assert |Shown([message], maxLogs)| == 1 - maxLogs + maxLogs;
      assert LastN(Oldest([message]), 0) == [];
      assert Shown([message], maxLogs) != LastN(Oldest([message]), AtLeastZero(maxLogs));
    }
  }

  lemma OneMessage<T>(message: seq<T>, maxLogs: int)
    requires message != []
    ensures Shown([message], maxLogs) == JsSlice(Reversed(message), -maxLogs)
  {
    assert [message][..0] == [] && [] + Reversed(message) == Reversed(message);
  }

  lemma {:induction false} ZeroKeepsAll<T>(messages: seq<seq<T>>)
    ensures Shown(messages, 0) == Oldest(messages)
  {
    if messages != [] {
      var k := |messages| - 1;
      ZeroKeepsAll(messages[..k]);
      assert messages[k] == [] ==> Oldest(messages[..k]) + Reversed(messages[k]) == Oldest(messages[..k]);
    }
  }

  // ── Order ──────────────────────────────────────────────────────────────────

  predicate Descending(ids: seq<int>) { forall i, j :: 0 <= i < j < |ids| ==> ids[i] > ids[j] }

  /** Later rows carry later timestamps. */
  predicate TimestampsFollowIds(rows: map<int, Row>, timestamp: string) {
    forall a, b :: a in rows && b in rows && a < b ==>
          CellLess(CellOf(a, rows[a], timestamp), CellOf(b, rows[b], timestamp))
  }

  ghost predicate AlwaysInTime(events: seq<Event>, c: Config)
    requires c.backlogMax >= 1
  {
    && TimestampsFollowIds(Run(events, c).tables.rows, c.catalog.timestamp)
    && (events != [] ==> AlwaysInTime(events[..|events| - 1], c))
  }

  predicate SessionDescends(x: Session) {
    && (forall k :: 0 <= k < |x.windows| ==> Descending(x.windows[k].sent))
    && (x.phase.Writing? ==> Descending(x.phase.window.sent))
  }

  lemma NewestFirstDescends(order: seq<int>, rows: map<int, Row>, ids: set<int>, timestamp: string, limit: nat)
    requires Enumerates(order, ids) && NewestFirst(order, rows, timestamp) && TimestampsFollowIds(rows, timestamp)
    requires forall id :: id in ids ==> id in rows
    ensures Descending(Slice(order, limit, 0))
  {
    forall i, j | 0 <= i < j < |order| ensures order[i] > order[j] {
      assert order[i] in order && order[j] in order;
      assert order[i] in rows && order[j] in rows;
    }
  }

  lemma SessionStepDescends(s: State, x: Session, e: Event, c: Config)
    requires SessionDescends(x) && TimestampsFollowIds(s.tables.rows, c.catalog.timestamp)
    ensures SessionDescends(SessionStep(s, x, e, c))
  {
    hide TimestampsFollowIds, NewestFirst;
    if e.Select? && c.sseLimit >= 0 && x.phase.Selecting? {
      var visible := Visible(s.tables.rows, x.pushed, x.phase.hi);
      if Enumerates(e.order, visible) && NewestFirst(e.order, s.tables.rows, c.catalog.timestamp) {
        NewestFirstDescends(e.order, s.tables.rows, visible, c.catalog.timestamp, c.sseLimit);
      }
    }
    hide Enumerates, Visible, Slice;
  }

  lemma {:induction false} RunDescends(events: seq<Event>, c: Config, k: nat)
    requires c.backlogMax >= 1 && AlwaysInTime(events, c) && k < |Run(events, c).sessions|
    ensures SessionDescends(Run(events, c).sessions[k])
  {
    hide TimestampsFollowIds, SessionStep, Step;
    if events == [] {
      NoSessionsAtStart(c);
    } else {
      var before, e := Run(events[..|events| - 1], c), events[|events| - 1];
      if k < |before.sessions| && e != Restart {
        RunDescends(events[..|events| - 1], c, k);
        StepSessions(before, e, c, k);
        SessionStepDescends(before, before.sessions[k], e, c);
      } else {
        NewSession(before, e, c, k);
      }
    }
  }

  lemma NoSessionsAtStart(c: Config)
    ensures Start(c).sessions == []
  {
  }

  lemma NewSession(s: State, e: Event, c: Config, k: nat)
    requires c.backlogMax >= 1 && k < |Step(s, e, c).sessions| && (k >= |s.sessions| || e == Restart)
    ensures Step(s, e, c).sessions[k] == Opened(s.lastId, s.status)
  {
    hide W.InsertBatch, Mark, SessionStep, Load, MaxLogId, EntriesOf;
  }

  function MessagesOf(windows: seq<Window>): (messages: seq<seq<int>>)
    ensures |messages| == |windows|
  {
    if windows == [] then [] else MessagesOf(windows[..|windows| - 1]) + [windows[|windows| - 1].sent]
  }

  lemma {:induction false} WindowsAscend(from: int, windows: seq<Window>, to: int, limit: int)
    requires Chain(from, windows, to)
    requires forall k :: 0 <= k < |windows| ==> WindowSound(windows[k], limit) && Descending(windows[k].sent)
    ensures from <= to && Ascending(Oldest(MessagesOf(windows)))
    ensures forall i :: 0 <= i < |Oldest(MessagesOf(windows))| ==> from < Oldest(MessagesOf(windows))[i] <= to
  {
    if windows != [] {
      var k := |windows| - 1;
      var last := windows[k];
      WindowsAscend(from, windows[..k], last.lo, limit);
      var init := MessagesOf(windows[..k]);
      assert (init + [last.sent])[..k] == init;
      LastAscends(last, limit);
    }
  }

  lemma LastAscends(w: Window, limit: int)
    requires WindowSound(w, limit) && Descending(w.sent)
    ensures Ascending(Reversed(w.sent))
    ensures forall i :: 0 <= i < |w.sent| ==> w.lo < Reversed(w.sent)[i] <= w.hi
  {
    forall i | 0 <= i < |w.sent| ensures w.lo < Reversed(w.sent)[i] <= w.hi {
      assert w.sent[|w.sent| - 1 - i] in w.visible;
    }
  }

  /** In every run in which timestamps follow ids, what a console has received over one session ascends strictly
      in id, and its buffer is exactly the newest maxLogs of it. */
  lemma ConsoleShowsNewestInOrder(events: seq<Event>, c: Config, k: nat, maxLogs: int)
    requires c.backlogMax >= 1 && AlwaysInTime(events, c) && k < |Run(events, c).sessions| && maxLogs > 0
    ensures var x := Run(events, c).sessions[k]; var all := Oldest(MessagesOf(x.windows));
            var buffer := Shown(MessagesOf(x.windows), maxLogs);
            && Ascending(all) && (forall i :: 0 <= i < |all| ==> x.start < all[i] <= x.pushed)
            && buffer == LastN(all, maxLogs) && Ascending(buffer)
  {
    EveryRunIsSound(events, c);
    var s := Run(events, c);
    assert SessionInvariant(s.sessions[k], s, c);
    RunDescends(events, c, k);
    hide Run, Sound, AlwaysInTime, Descending, WindowSound, Chain;
    var x := s.sessions[k];
    WindowsAscend(x.start, x.windows, x.pushed, c.sseLimit);
    ShownIsNewest(MessagesOf(x.windows), maxLogs);
  }
}
