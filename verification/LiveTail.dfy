/**
 One live-tail session: the cursor, and the windows of ids it has queried.
 Each function is one uninterrupted segment of the handler between two suspension points.
 */
module LiveTail {
  import opened IdSets
  import opened Results
  import opened LogTable
  import opened Dictionary
  import opened Queries

  /** Where each entry ever handed to the backlog is now; Stored entries carry the row id they got. */
  datatype Status =
    | Queued | Held | Evicted | Stored(id: int) | Skipped | Rejected | NoColumns | LostInBatch | LostAtExit

  /** One query of the ids in (lo, hi]: the rows it could see, which of them were sent, newest first, and
      the state of every entry at that moment. */
  datatype Window = Window(lo: int, hi: int, visible: set<int>, sent: seq<int>, statuses: seq<Status>)

  datatype Phase = Waiting | Counting(hi: int) | Selecting(hi: int) | Writing(window: Window) | Closed

  /** opening is the state of every entry when the session opened; like windows it is history. */
  datatype Session = Session(start: int, opening: seq<Status>, pushed: int, phase: Phase, windows: seq<Window>)

  function Opened(lastId: int, now: seq<Status>): Session {
    Session(lastId, now, lastId, Waiting, [])
  }

  /** The timer fired or was cancelled: nothing new, or too soon, or a window to query. */
  function Woken(s: Session, lastId: int, tooSoon: bool): Session {
    if s.phase != Waiting || lastId <= s.pushed || tooSoon then s else s.(phase := Counting(lastId))
  }

  function Visible(rows: map<int, Row>, lo: int, hi: int): set<int> {
    set id | id in rows && lo < id <= hi
  }

  /** The rows of a window are those its two id filters select. */
  lemma WindowFiltersSelectVisible(rows: map<int, Row>, lo: int, hi: int, cat: Catalog, lookup: Lookup)
    requires cat.HasColumn(ID) && ID !in cat.compressed
    ensures var filters := [Filter(ID, ">", JInt(lo)), Filter(ID, "<=", JInt(hi))];
            && WhereOf(filters, cat, lookup).Ok?
            && Matching(rows, WhereOf(filters, cat, lookup).value) == Visible(rows, lo, hi)
  {
    var first, second := Filter(ID, ">", JInt(lo)), Filter(ID, "<=", JInt(hi));
    assert [first, second][..1] == [first] && [first][..0] == [];
    assert ValidFilter(first, cat) && ValidFilter(second, cat);
    var conditions := [Cmp(ID, ">", Int(lo)), Cmp(ID, "<=", Int(hi))];
    assert [] + [conditions[0]] == [conditions[0]] && [conditions[0]] + [conditions[1]] == conditions;
    assert WhereOf([first], cat, lookup) == Ok(All([conditions[0]]));
    assert WhereOf([first, second], cat, lookup) == Ok(All(conditions));
    forall id | id in rows ensures Selects(All(conditions), id, rows[id]) <==> lo < id <= hi {
      assert Holds1(conditions[0], id, rows[id]) <==> lo < id;
      assert Holds1(conditions[1], id, rows[id]) <==> id <= hi;
    }
    var a, b := Matching(rows, All(conditions)), Visible(rows, lo, hi);
    Subset(a, b);
    Subset(b, a);
  }

  function Advanced(s: Session, w: Window): Session {
    s.(pushed := w.hi, phase := Waiting, windows := s.windows + [w])
  }

  /** The count statement: no row in the window moves the cursor past it. */
  function Counted(s: Session, rows: map<int, Row>, now: seq<Status>): Session {
    if !s.phase.Counting? then s
    else if Visible(rows, s.pushed, s.phase.hi) == {} then Advanced(s, Window(s.pushed, s.phase.hi, {}, [], now))
    else s.(phase := Selecting(s.phase.hi))
  }

  /** The select statement: an empty result moves the cursor, anything else is written first. */
  function Selected(s: Session, rows: map<int, Row>, order: seq<int>, limit: nat, now: seq<Status>): Session {
    if !s.phase.Selecting? then s
    else
      var w := Window(s.pushed, s.phase.hi, Visible(rows, s.pushed, s.phase.hi), Slice(order, limit, 0), now);
      if w.sent == [] then Advanced(s, w) else s.(phase := Writing(w))
  }

  function QueryFailed(s: Session): Session {
    if s.phase.Counting? || s.phase.Selecting? then s.(phase := Waiting) else s
  }

  function Written(s: Session): Session {
    if s.phase.Writing? then Advanced(s, s.phase.window) else s
  }

  function HungUp(s: Session): Session {
    s.(phase := Closed)
  }

  // ── What every session keeps ───────────────────────────────────────────────

  /** The windows abut: together they cover (from, to] and nothing twice. */
  predicate Chain(from: int, windows: seq<Window>, to: int) {
    if windows == [] then from == to
    else
      var last := windows[|windows| - 1];
      last.lo < last.hi == to && Chain(from, windows[..|windows| - 1], last.lo)
  }

  ghost predicate WindowSound(w: Window, limit: int) {
    && (forall id :: id in w.visible ==> w.lo < id <= w.hi)
    && (forall i :: 0 <= i < |w.sent| ==> w.sent[i] in w.visible)
    && (forall i, j :: 0 <= i < j < |w.sent| ==> w.sent[i] != w.sent[j])
    && (forall id :: id in w.visible ==> id in w.sent || |w.sent| == limit < |w.visible|)
  }

  predicate PhaseSound(s: Session) {
    match s.phase
    case Counting(hi) => s.pushed < hi
    case Selecting(hi) => s.pushed < hi
    case Writing(w) => s.pushed == w.lo < w.hi
    case _ => true
  }

  ghost predicate SessionSound(s: Session, limit: int) {
    && Chain(s.start, s.windows, s.pushed) && PhaseSound(s)
    && (forall k :: 0 <= k < |s.windows| ==> WindowSound(s.windows[k], limit))
    && (s.phase.Writing? ==> WindowSound(s.phase.window, limit))
  }

  lemma AdvancedSound(s: Session, w: Window, limit: int)
    requires SessionSound(s, limit) && WindowSound(w, limit) && w.lo == s.pushed < w.hi
    ensures SessionSound(Advanced(s, w), limit)
  {
    hide WindowSound;
    var windows := s.windows + [w];
    assert windows[|windows| - 1] == w && windows[..|windows| - 1] == s.windows;
    assert Chain(s.start, windows, w.hi);
  }

  /** Fewer distinct elements than the set holds only if the listing was cut short. */
  lemma PageSound(order: seq<int>, ids: set<int>, limit: nat)
    requires Enumerates(order, ids)
    ensures forall id :: id in ids ==> id in Slice(order, limit, 0) || |Slice(order, limit, 0)| == limit < |ids|
  {
    EnumerationSize(order, ids);
  }

  lemma {:induction false} EnumerationSize(order: seq<int>, ids: set<int>)
    requires Enumerates(order, ids)
    ensures |ids| == |order|
  {
    if order == [] {
      Subset(ids, {});
    } else {
      var k := |order| - 1;
      assert order[k] in order;
      forall id ensures id in order[..k] <==> id in ids - {order[k]} {
        assert id in order <==> id in order[..k] || id == order[k];
      }
      EnumerationSize(order[..k], ids - {order[k]});
    }
  }

  lemma SelectedSound(s: Session, rows: map<int, Row>, order: seq<int>, limit: nat, now: seq<Status>)
    requires SessionSound(s, limit)
    requires s.phase.Selecting? ==> Enumerates(order, Visible(rows, s.pushed, s.phase.hi))
    ensures SessionSound(Selected(s, rows, order, limit, now), limit)
  {
    if s.phase.Selecting? {
      var visible := Visible(rows, s.pushed, s.phase.hi);
      var w := Window(s.pushed, s.phase.hi, visible, Slice(order, limit, 0), now);
      PageSound(order, visible, limit);
      assert forall i :: 0 <= i < |w.sent| ==> w.sent[i] in order;
      assert WindowSound(w, limit);
      if w.sent == [] {
        AdvancedSound(s, w, limit);
      }
    }
  }

  lemma CountedSound(s: Session, rows: map<int, Row>, now: seq<Status>, limit: int)
    requires SessionSound(s, limit)
    ensures SessionSound(Counted(s, rows, now), limit)
  {
    if s.phase.Counting? {
      AdvancedSound(s, Window(s.pushed, s.phase.hi, {}, [], now), limit);
    }
  }

  lemma {:induction false} ChainCovers(from: int, windows: seq<Window>, to: int, id: int) returns (k: nat)
    requires Chain(from, windows, to) && from < id <= to
    ensures k < |windows| && windows[k].lo < id <= windows[k].hi
  {
    var last := windows[|windows| - 1];
    if last.lo < id {
      k := |windows| - 1;
    } else {
      k := ChainCovers(from, windows[..|windows| - 1], last.lo, id);
    }
  }

  lemma {:induction false} ChainOrdered(from: int, windows: seq<Window>, to: int, i: int, j: int)
    requires Chain(from, windows, to) && 0 <= i < j < |windows|
    ensures from <= windows[i].lo < windows[i].hi <= windows[j].lo < windows[j].hi <= to
    decreases |windows|
  {
    var k := |windows| - 1;
    var init := windows[..k];
    ChainBounds(from, init, windows[k].lo, i);
    if j < k {
      ChainOrdered(from, init, windows[k].lo, i, j);
    }
  }

  lemma {:induction false} ChainBounds(from: int, windows: seq<Window>, to: int, i: int)
    requires Chain(from, windows, to) && 0 <= i < |windows|
    ensures from <= windows[i].lo < windows[i].hi <= to
    decreases |windows|
  {
    var k := |windows| - 1;
    if k == 0 {
      assert windows[..k] == [];
    } else if i < k {
      ChainBounds(from, windows[..k], windows[k].lo, i);
    } else {
      ChainBounds(from, windows[..k], windows[k].lo, 0);
    }
  }

  lemma {:induction false} ChainStartsBelow(from: int, windows: seq<Window>, to: int)
    requires Chain(from, windows, to)
    ensures from <= to
  {
    if windows != [] {
      ChainStartsBelow(from, windows[..|windows| - 1], windows[|windows| - 1].lo);
    }
  }

  // ── The handler's code ─────────────────────────────────────────────────────

  /** Time points are milliseconds of a clock that never runs backwards. */
  class SseHandler {
    const sseLimit: nat
    const debounce: nat
    const start: int
    ghost const opening: seq<Status>
    var pushedId: int
    var phase: Phase
    var wokenTp: nat                   // when the window being queried was taken
    var lastPushTp: Option<nat>
    var lastWriteTp: nat
    ghost var windows: seq<Window>

    constructor (lastId: int, sseLimit: nat, debounce: nat, now: nat, ghost statuses: seq<Status>)
      ensures State() == Opened(lastId, statuses) && this.sseLimit == sseLimit && this.debounce == debounce
      ensures lastPushTp == None && lastWriteTp == now
    {
      this.sseLimit, this.debounce, opening := sseLimit, debounce, statuses;
      start, pushedId, phase, windows := lastId, lastId, Waiting, [];
      wokenTp, lastPushTp, lastWriteTp := now, None, now;
    }

    ghost function State(): Session
      reads this
    {
      Session(start, opening, pushedId, phase, windows)
    }

    /** A window is taken no sooner than the debounce time after the one last pushed was. */
    predicate TooSoon(now: nat)
      reads this
    {
      lastPushTp.Some? && now - lastPushTp.value < debounce
    }

    /** 15 seconds without a write call for an empty one. */
    predicate KeepAliveDue(now: nat)
      reads this
    {
      now - lastWriteTp >= 15000
    }

    method OnTimer(lastId: int, now: nat, keepAliveOk: bool)
      requires phase == Waiting
      modifies this
      ensures State() == if lastId <= old(pushedId) && old(KeepAliveDue(now)) && !keepAliveOk then HungUp(old(State()))
                         else Woken(old(State()), lastId, old(TooSoon(now)))
      ensures lastPushTp == old(lastPushTp) && (phase.Counting? ==> wokenTp == now)
      ensures lastWriteTp == if lastId <= old(pushedId) && old(KeepAliveDue(now))
            && keepAliveOk then now else old(lastWriteTp)
      ensures lastId > old(pushedId) ==>
        phase == if old(lastPushTp) == None || now - old(lastPushTp).value >= debounce
                 then Counting(lastId) else Waiting
      ensures lastId <= old(pushedId) ==>
        phase == if now - old(lastWriteTp) >= 15000 && !keepAliveOk then Closed else Waiting
    {
      var currentId := lastId;
      if currentId <= pushedId {
        if now - lastWriteTp >= 15000 {
          if !keepAliveOk {
            phase := Closed;
            return;
          }
          lastWriteTp := now;
        }
        return;
      }
      if lastPushTp.Some? && now - lastPushTp.value < debounce {
        return;
      }
      wokenTp := now;
      phase := Counting(currentId);
    }

    /** The query over (pushedId, hi] at one moment: its rows, counted and then listed by the database. */
    method OnCount(rows: map<int, Row>, ghost now: seq<Status>)
      requires phase.Counting?
      modifies this
      ensures State() == Counted(old(State()), rows, now)
      ensures if exists id :: id in rows && old(pushedId) < id <= old(phase).hi
              then phase == Selecting(old(phase).hi) && pushedId == old(pushedId)
              else phase == Waiting && pushedId == old(phase).hi
    {
      var hi := phase.hi;
      var total := |Visible(rows, pushedId, hi)|;
      assert forall id :: id in rows && pushedId < id <= hi ==> id in Visible(rows, pushedId, hi);
      if total == 0 {
        windows := windows + [Window(pushedId, hi, {}, [], now)];
        pushedId := hi;
        phase := Waiting;
      } else {
        phase := Selecting(hi);
      }
    }

    method OnSelect(rows: map<int, Row>, order: seq<int>, now: seq<Status>)
      requires phase.Selecting?
      modifies this
      ensures State() == Selected(old(State()), rows, order, sseLimit, now)
      ensures if order == [] || sseLimit == 0 then phase == Waiting && pushedId == old(phase).hi
              else phase.Writing? && pushedId == old(pushedId) && windows == old(windows)
    {
      var hi := phase.hi;
      var results := Slice(order, sseLimit, 0);
      var window := Window(pushedId, hi, Visible(rows, pushedId, hi), results, now);
      if results == [] {
        windows := windows + [window];
        pushedId := hi;
        phase := Waiting;
      } else {
        phase := Writing(window);
      }
    }

    method OnWrite(ok: bool)
      requires phase.Writing?
      modifies this
      ensures State() == if ok then Written(old(State())) else HungUp(old(State()))
      ensures phase == (if ok then Waiting else Closed)
      ensures pushedId == if ok then old(phase).window.hi else old(pushedId)
      ensures windows == if ok then old(windows) + [old(phase).window] else old(windows)
      ensures ok ==> lastPushTp == Some(old(wokenTp)) && lastWriteTp == old(wokenTp)
    {
      if !ok {
        phase := Closed;
        return;
      }
      windows := windows + [phase.window];
      pushedId := phase.window.hi;
      phase := Waiting;
      lastPushTp, lastWriteTp := Some(wokenTp), wokenTp;
    }

    method OnQueryError()
      requires phase.Counting? || phase.Selecting?
      modifies this
      ensures State() == QueryFailed(old(State()))
      ensures phase == Waiting && pushedId == old(pushedId) && windows == old(windows)
    {
      phase := Waiting;
    }
  }
}
