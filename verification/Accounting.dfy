/** What every run of the service keeps: where each entry is, what the tables hold, what a session was sent. */
module Accounting {
  import opened IdSets
  import opened Sequences
  import opened LogTable
  import opened Backlogs
  import opened Dictionary
  import W = Writer
  import opened Storage
  import opened Queries
  import opened LiveTail
  import opened Service

  // ── Pipeline ───────────────────────────────────────────────────────────────

  predicate InFlightStatus(x: Status) { x == Held || x == Queued }

  /** The held and queued entries are exactly those whose status says so, in arrival order, and everything
      stored arrived before everything still in flight. */
  ghost predicate PlacesSound(status: seq<Status>, held: seq<nat>, queued: seq<nat>) {
    && Ascending(held + queued)
    && (forall k :: 0 <= k < |held| ==> held[k] < |status| && status[held[k]] == Held)
    && (forall k :: 0 <= k < |queued| ==> queued[k] < |status| && status[queued[k]] == Queued)
    && (forall i :: 0 <= i < |status| && InFlightStatus(status[i]) ==> i in held + queued)
    && (forall i, j :: 0 <= i < |status| && 0 <= j < |status| && status[i].Stored? && InFlightStatus(status[j]) ==>
          i < j)
  }

  ghost predicate PipelineSound(s: State, c: Config) {
    && |s.status| == |s.arrivals|
    && |s.queue.items| <= c.backlogMax && (s.queue.full <==> AtWatermark(|s.queue.items|, c.backlogMax))
    && PlacesSound(s.status, HeldEntries(s.flush), s.queue.items)
  }

  lemma {:induction false} MarkAt(status: seq<Status>, batch: seq<nat>, marks: seq<Status>)
    requires |batch| == |marks| && Ascending(batch)
    requires forall k :: 0 <= k < |batch| ==> batch[k] < |status|
    ensures var after := Mark(status, batch, marks);
            && (forall k :: 0 <= k < |batch| ==> after[batch[k]] == marks[k])
            && (forall i :: 0 <= i < |status| && i !in batch ==> after[i] == status[i])
  {
    if batch != [] {
      var k := |batch| - 1;
      MarkAt(status, batch[..k], marks[..k]);
      assert batch == batch[..k] + [batch[k]];
    }
  }

  /** Giving the held entries a final status leaves only the queue in flight. */
  lemma HeldSettled(status: seq<Status>, held: seq<nat>, queued: seq<nat>, marks: seq<Status>)
    requires PlacesSound(status, held, queued) && |marks| == |held|
    requires forall k :: 0 <= k < |marks| ==> !InFlightStatus(marks[k])
    ensures PlacesSound(Mark(status, held, marks), [], queued)
  {
    hide Mark, Ascending;
    var after := Mark(status, held, marks);
    QueueAscends(held, queued);
    assert [] + queued == queued;
    forall k | 0 <= k < |queued| ensures queued[k] < |after| && after[queued[k]] == Queued {
      var a := HeldMark(status, held, queued, marks, queued[k]);
    }
    forall i | 0 <= i < |after| && InFlightStatus(after[i]) ensures i in queued {
      var a := HeldMark(status, held, queued, marks, i);
      assert i in held + queued;
    }
    forall i, j | 0 <= i < |after| && 0 <= j < |after| && after[i].Stored? && InFlightStatus(after[j]) ensures i < j {
      SettledBeforeQueued(status, held, queued, marks, i, j);
    }
  }

  lemma QueueAscends(held: seq<nat>, queued: seq<nat>)
    requires Ascending(held + queued)
    ensures Ascending(queued)
  {
    assert forall k :: 0 <= k < |queued| ==> (held + queued)[|held| + k] == queued[k];
  }

  /** What is stored after a batch is settled arrived before what is still in flight. */
  lemma SettledBeforeQueued(status: seq<Status>, held: seq<nat>, queued: seq<nat>, marks: seq<Status>, i: nat, j: nat)
    requires PlacesSound(status, held, queued) && |marks| == |held| && i < |status| && j < |status|
    requires forall k :: 0 <= k < |marks| ==> !InFlightStatus(marks[k])
    requires Mark(status, held, marks)[i].Stored? && InFlightStatus(Mark(status, held, marks)[j])
    ensures i < j
  {
    var a := HeldMark(status, held, queued, marks, i);
    var b := HeldMark(status, held, queued, marks, j);
    hide Mark;
    if a >= 0 {
      HeldBeforeQueued(held, queued, i, j);
    }
  }

  lemma HeldBeforeQueued(held: seq<nat>, queued: seq<nat>, i: nat, j: nat)
    requires Ascending(held + queued) && i in held && j in held + queued && j !in held
    ensures i < j
  {
    var a :| 0 <= a < |held| && held[a] == i;
    var b :| 0 <= b < |held + queued| && (held + queued)[b] == j;
    assert (held + queued)[a] == i;
  }

  lemma DrainedPlaces(status: seq<Status>, queued: seq<nat>)
    requires PlacesSound(status, [], queued)
    ensures PlacesSound(Mark(status, queued, Repeat(Held, |queued|)), queued, [])
  {
    var after := Mark(status, queued, Repeat(Held, |queued|));
    assert [] + queued == queued && queued + [] == queued;
    MarkAt(status, queued, Repeat(Held, |queued|));
    forall i | 0 <= i < |status| && i in queued ensures InFlightStatus(status[i]) && after[i] == Held {
      var k :| 0 <= k < |queued| && queued[k] == i;
    }
    forall i | 0 <= i < |status| && i !in queued ensures after[i] == status[i] && !InFlightStatus(status[i]) {
    }
  }

  lemma WithoutOldest(held: seq<nat>, queued: seq<nat>)
    requires Ascending(held + queued) && queued != []
    ensures Ascending(held + queued[1..])
    ensures forall k :: 0 <= k < |held| ==> held[k] < queued[0]
    ensures forall k :: 0 < k < |queued| ==> queued[0] < queued[k]
    ensures forall i :: i in held + queued && i != queued[0] ==> i in held + queued[1..]
  {
    var all, all' := held + queued, held + queued[1..];
    assert forall k :: 0 <= k < |all'| ==> all'[k] == all[if k < |held| then k else k + 1];
    assert all[|held|] == queued[0];
    forall k | 0 <= k < |held| ensures held[k] < queued[0] {
      assert all[k] == held[k];
    }
    forall k | 0 < k < |queued| ensures queued[0] < queued[k] {
      assert all[|held| + k] == queued[k];
    }
    forall i | i in all && i != queued[0] ensures i in all' {
      var k :| 0 <= k < |all| && all[k] == i;
      assert i == all'[if k < |held| then k else k - 1];
    }
  }

  lemma EvictedPlaces(status: seq<Status>, held: seq<nat>, queued: seq<nat>)
    requires PlacesSound(status, held, queued) && queued != []
    ensures PlacesSound(Mark(status, [queued[0]], [LiveTail.Evicted]), held, queued[1..])
  {
    var after := Mark(status, [queued[0]], [LiveTail.Evicted]);
    WithoutOldest(held, queued);
    MarkAt(status, [queued[0]], [LiveTail.Evicted]);
    hide Mark, Ascending;
    assert [queued[0]][0] == queued[0];
    assert after[queued[0]] == LiveTail.Evicted;
    forall i | 0 <= i < |status| && i != queued[0] ensures after[i] == status[i] {
      assert i !in [queued[0]];
    }
  }

  lemma AppendedPlaces(status: seq<Status>, held: seq<nat>, queued: seq<nat>)
    requires PlacesSound(status, held, queued)
    ensures PlacesSound(status + [Queued], held, queued + [|status|])
  {
    var all := held + queued;
    assert held + (queued + [|status|]) == all + [|status|];
    forall k | 0 <= k < |all| ensures all[k] < |status| {
      assert all[k] == if k < |held| then held[k] else queued[k - |held|];
    }
  }

  lemma AddedPlaces(status: seq<Status>, held: seq<nat>, q: Queue<nat>, max: nat)
    requires max >= 1 && PlacesSound(status, held, q.items)
    ensures var evicted := Backlogs.Evicted(q, max);
            PlacesSound(Mark(status, evicted, Repeat(LiveTail.Evicted, |evicted|)) + [Queued], held,
                  Added(q, max, |status|).items)
  {
    if |q.items| >= max {
      assert Repeat(LiveTail.Evicted, 1) == [LiveTail.Evicted];
      EvictedPlaces(status, held, q.items);
      AppendedPlaces(Mark(status, [q.items[0]], [LiveTail.Evicted]), held, q.items[1..]);
    } else {
      AppendedPlaces(status, held, q.items);
    }
  }

  // ── Storage ────────────────────────────────────────────────────────────────

  /** The row holds the values of entry i, the last one stored under its id. */
  ghost predicate RowOwned(s: State, cat: Catalog, id: int, i: int) {
    && 0 <= i < |s.status| && i < |s.arrivals| && LastUnder(s.status, id, i)
    && id in s.tables.rows && RowFor(s.arrivals[i], s.tables.rows[id], cat, s.tables.dict)
  }

  ghost predicate LastUnder(status: seq<Status>, id: int, i: nat) {
    && i < |status| && status[i] == Stored(id)
    && forall j :: i < j < |status| ==> status[j] != Stored(id)
  }

  lemma OneOwner(s: State, cat: Catalog, id: int, i: int, j: int)
    requires RowOwned(s, cat, id, i) && RowOwned(s, cat, id, j)
    ensures i == j
  {
    hide RowFor;
  }

  ghost predicate StoredInOrder(status: seq<Status>) {
    forall i, j :: 0 <= i < j < |status| && status[i].Stored? && status[j].Stored? ==> status[i].id < status[j].id
  }

  predicate StoredSomewhere(t: Tables, deleted: set<int>, x: Status) {
    x.Stored? ==> 1 <= x.id <= t.sequence && (x.id in t.rows || x.id in deleted)
  }

  /** Every row holds the values of an entry stored under its id; every stored entry is a row or was vacuumed;
      dictionary memory covers the dictionary table, and no more than it while inserts can still happen. */
  ghost predicate StorageSound(s: State, cat: Catalog) {
    && IdsSound(s.tables.rows, s.tables.sequence) && Agrees(s.lookup, s.tables.dict, cat)
    && (s.flush != Ended ==> InStep(s.lookup, s.tables.dict, cat))
    && (forall id :: id in s.tables.rows ==> exists i :: RowOwned(s, cat, id, i))
    && (forall i :: 0 <= i < |s.status| ==> StoredSomewhere(s.tables, s.deleted, s.status[i]))
    && (cat.autoincrement ==> StoredInOrder(s.status))
  }

  /** No entry becomes stored and none stops being so. */
  ghost predicate SameStored(status: seq<Status>, after: seq<Status>) {
    && |status| <= |after|
    && (forall i :: 0 <= i < |status| && (status[i].Stored? || after[i].Stored?) ==> after[i] == status[i])
    && (forall i :: |status| <= i < |after| ==> !after[i].Stored?)
  }

  lemma MarkKeepsStored(status: seq<Status>, batch: seq<nat>, marks: seq<Status>)
    requires |batch| == |marks| && Ascending(batch)
    requires forall k :: 0 <= k < |batch| ==>
      batch[k] < |status| && InFlightStatus(status[batch[k]]) && !marks[k].Stored?
    ensures SameStored(status, Mark(status, batch, marks))
  {
    MarkAt(status, batch, marks);
    forall i | 0 <= i < |status| && i in batch ensures !status[i].Stored? && !Mark(status, batch, marks)[i].Stored? {
      var k :| 0 <= k < |batch| && batch[k] == i;
    }
  }

  lemma InFlightSettled(status: seq<Status>, held: seq<nat>, queued: seq<nat>, marks: seq<Status>)
    requires PlacesSound(status, held, queued) && |marks| == |held + queued|
    requires forall k :: 0 <= k < |marks| ==> !InFlightStatus(marks[k]) && !marks[k].Stored?
    ensures PlacesSound(Mark(status, held + queued, marks), [], [])
    ensures SameStored(status, Mark(status, held + queued, marks))
  {
    var all := held + queued;
    var after := Mark(status, all, marks);
    forall k | 0 <= k < |all| ensures all[k] < |status| && InFlightStatus(status[all[k]]) {
      assert all[k] == if k < |held| then held[k] else queued[k - |held|];
    }
    MarkAt(status, all, marks);
    MarkKeepsStored(status, all, marks);
    forall i | 0 <= i < |after| ensures !InFlightStatus(after[i]) {
      if i in all {
        var k :| 0 <= k < |all| && all[k] == i;
      }
    }
  }

  /** Steps that store nothing: the tables stay, only the bookkeeping around them moves. */
  lemma StorageFrame(s: State, after: State, cat: Catalog)
    requires StorageSound(s, cat) && after.tables == s.tables && after.deleted == s.deleted
    requires Agrees(after.lookup, after.tables.dict, cat)
    requires after.flush != Ended ==> InStep(after.lookup, after.tables.dict, cat)
    requires SameStored(s.status, after.status) && s.arrivals <= after.arrivals
    ensures StorageSound(after, cat)
  {
    forall id | id in s.tables.rows ensures exists i :: RowOwned(after, cat, id, i) {
      var i :| RowOwned(s, cat, id, i);
      assert RowOwned(after, cat, id, i);
    }
    assert forall i :: 0 <= i < |after.status| && after.status[i].Stored? ==>
      i < |s.status| && after.status[i] == s.status[i];
  }

  /** A vacuum job removes rows and nothing else. */
  lemma DeleteKeepsStorage(s: State, ids: set<int>, cat: Catalog)
    requires StorageSound(s, cat)
    ensures StorageSound(Deleted(s, ids), cat)
  {
    var after := Deleted(s, ids);
    forall id | id in after.tables.rows ensures exists i :: RowOwned(after, cat, id, i) {
      var i :| RowOwned(s, cat, id, i);
      assert RowOwned(after, cat, id, i);
    }
    forall i | 0 <= i < |s.status| ensures StoredSomewhere(after.tables, after.deleted, after.status[i]) {
      assert StoredSomewhere(s.tables, s.deleted, s.status[i]);
    }
  }

  /** The held entries as a batch: in range, in order, marked one by one. */
  lemma HeldMarks(status: seq<Status>, held: seq<nat>, queued: seq<nat>, marks: seq<Status>)
    requires PlacesSound(status, held, queued) && |marks| == |held|
    ensures Ascending(held) && forall k :: 0 <= k < |held| ==> held[k] < |status| && status[held[k]] == Held
    ensures var after := Mark(status, held, marks);
            && (forall k :: 0 <= k < |held| ==> after[held[k]] == marks[k])
            && (forall i :: 0 <= i < |status| && i !in held ==> after[i] == status[i])
  {
    assert forall k :: 0 <= k < |held| ==> (held + queued)[k] == held[k];
    MarkAt(status, held, marks);
  }

  lemma HeldMarkAt(status: seq<Status>, held: seq<nat>, queued: seq<nat>, marks: seq<Status>, k: nat)
    requires PlacesSound(status, held, queued) && |marks| == |held| && k < |held|
    ensures held[k] < |status| && status[held[k]] == Held && Mark(status, held, marks)[held[k]] == marks[k]
  {
    HeldMarks(status, held, queued, marks);
    hide Mark, PlacesSound, Ascending;
  }

  /** What became of entry i: the mark of its place in the batch, or nothing (-1) if it was not held. */
  lemma HeldMark(status: seq<Status>, held: seq<nat>, queued: seq<nat>, marks: seq<Status>, i: nat) returns (k: int)
    requires PlacesSound(status, held, queued) && |marks| == |held| && i < |status|
    ensures if k < 0 then i !in held && Mark(status, held, marks)[i] == status[i]
            else k < |held| && held[k] == i && status[i] == Held && Mark(status, held, marks)[i] == marks[k]
  {
    HeldMarks(status, held, queued, marks);
    hide PlacesSound, Mark, Ascending;
    if i in held {
      k :| 0 <= k < |held| && held[k] == i;
    } else {
      k := -1;
    }
  }

  /** A commit of the held batch, as the invariants see it. */
  ghost predicate Commits(s: State, after: State, fates: seq<W.Fate>, cat: Catalog) {
    var held := HeldEntries(s.flush);
    && |s.status| == |s.arrivals| && PlacesSound(s.status, held, s.queue.items)
    && InsertSound(s.tables, s.lookup, cat, EntriesOf(s.arrivals, held), W.Committed(after.tables, after.lookup, fates))
    && after.status == Mark(s.status, held, StatusesOf(fates))
    && after.arrivals == s.arrivals && after.deleted == s.deleted
  }

  /** Where a stored status comes from: it was there before, or it is the fate of a held entry. */
  ghost predicate CameFrom(s: State, after: State, fates: seq<W.Fate>, i: nat, k: int) {
    var held := HeldEntries(s.flush);
    i < |after.status| && i < |s.status| &&
    if k < 0 then after.status[i] == s.status[i]
    else k < |held| && held[k] == i && s.status[i] == Held && after.status[i].Stored?
          && AssignedTo(fates, k, after.status[i].id)
  }

  lemma CommitMarksAll(s: State, after: State, fates: seq<W.Fate>, cat: Catalog)
    requires Commits(s, after, fates, cat)
    ensures |fates| == |HeldEntries(s.flush)|
  {
  }

  lemma StoredCameFrom(s: State, after: State, fates: seq<W.Fate>, cat: Catalog, i: nat) returns (k: int)
    requires Commits(s, after, fates, cat) && i < |after.status| && after.status[i].Stored?
    ensures CameFrom(s, after, fates, i, k)
  {
    CommitMarksAll(s, after, fates, cat);
    hide PlacesSound, InsertSound, Mark, EntriesOf, StatusesOf;
    k := HeldMark(s.status, HeldEntries(s.flush), s.queue.items, StatusesOf(fates), i);
  }

  /** The owner of a row after a commit: that of before, or a held entry, whose row decodes. */
  lemma CommitKeepsOwner(s: State, after: State, fates: seq<W.Fate>, cat: Catalog, id: int) returns (i: nat)
    requires StorageSound(s, cat) && Commits(s, after, fates, cat) && id in after.tables.rows
    ensures RowOwned(after, cat, id, i)
    ensures if id in s.tables.rows then RowOwned(s, cat, id, i) && after.tables.rows[id] == s.tables.rows[id]
            else RowDecodes(after.arrivals[i], after.tables.rows[id], cat, after.lookup)
  {
    var held := HeldEntries(s.flush);
    var entries := EntriesOf(s.arrivals, held);
    HeldMarks(s.status, held, s.queue.items, StatusesOf(fates));
    hide PlacesSound, Ascending, InStep, RowDecodes;
    if id in s.tables.rows {
      i :| RowOwned(s, cat, id, i);
      assert i !in held;
      MoreDictionaryKeepsCells(s.arrivals[i], s.tables.rows[id], cat, cat.DataColumns(), s.tables.dict,
            after.tables.dict);
      OldRowKeepsLast(s, after, fates, cat, id, i);
    } else {
      var k :| AssignedTo(fates, k, id);
      i := held[k];
      assert after.status[held[k]] == StatusOf(fates[k]);
      NewRowIsLast(s, after, fates, cat, id, k);
      assert RowIn(entries[k], after.tables.rows[id], cat, Tx(after.lookup, after.tables.dict, 0));
    }
  }

  /** A commit stores nothing under an id that is present. */
  lemma OldRowKeepsLast(s: State, after: State, fates: seq<W.Fate>, cat: Catalog, id: int, i: nat)
    requires Commits(s, after, fates, cat) && id in s.tables.rows && LastUnder(s.status, id, i)
    requires i !in HeldEntries(s.flush)
    ensures LastUnder(after.status, id, i)
  {
    var held := HeldEntries(s.flush);
    HeldMarks(s.status, held, s.queue.items, StatusesOf(fates));
    forall j | i < j < |after.status| ensures after.status[j] != Stored(id) {
      if after.status[j].Stored? {
        var k := StoredCameFrom(s, after, fates, cat, j);
        hide PlacesSound, Ascending, InStep, RowIn, RowsCome, FatesAscending, Mark, EntriesOf, StatusesOf;
        if k >= 0 {
          assert AssignedTo(fates, k, after.status[j].id);
        }
      }
    }
  }

  lemma OneFatePerId(fates: seq<W.Fate>, a: int, b: int, id: int)
    requires FatesAscending(fates) && AssignedTo(fates, a, id) && AssignedTo(fates, b, id)
    ensures a == b
  {
    hide AssignedTo;
  }

  lemma CommitFatesAscend(s: State, after: State, fates: seq<W.Fate>, cat: Catalog)
    requires Commits(s, after, fates, cat)
    ensures FatesAscending(fates) && PlacesSound(s.status, HeldEntries(s.flush), s.queue.items)
    ensures |fates| == |HeldEntries(s.flush)|
  {
    hide FatesAscending, FatesFit, RowsCome, KeepsRows, InStep, IdsSound, PlacesSound, LacksRequired;
  }

  /** No entry stored under the id of a new row arrived after the one it was given to. */
  lemma NoneAfterNewRow(s: State, after: State, fates: seq<W.Fate>, cat: Catalog, id: int, k: nat, j: nat)
    requires Commits(s, after, fates, cat) && AssignedTo(fates, k, id) && k < |HeldEntries(s.flush)|
    requires j < |after.status| && after.status[j] == Stored(id)
    ensures j <= HeldEntries(s.flush)[k]
  {
    var held := HeldEntries(s.flush);
    CommitFatesAscend(s, after, fates, cat);
    hide Commits, FatesAscending, Mark, EntriesOf, PlacesSound;
    HeldMarkAt(s.status, held, s.queue.items, StatusesOf(fates), k);
    var a := StoredCameFrom(s, after, fates, cat, j);
    if a < 0 {
      StoredBeforeHeld(s.status, held, s.queue.items, j, held[k]);
    } else {
      OneFatePerId(fates, a, k, id);
    }
  }

  /** A row new with a commit has one entry under its id in the batch, and none was stored after it. */
  lemma NewRowIsLast(s: State, after: State, fates: seq<W.Fate>, cat: Catalog, id: int, k: nat)
    requires Commits(s, after, fates, cat) && AssignedTo(fates, k, id) && k < |HeldEntries(s.flush)|
    ensures LastUnder(after.status, id, HeldEntries(s.flush)[k])
  {
    var held := HeldEntries(s.flush);
    HeldMarkAt(s.status, held, s.queue.items, StatusesOf(fates), k);
    hide Commits, Mark, EntriesOf, PlacesSound;
    forall j | 0 <= j < |after.status| && after.status[j] == Stored(id) ensures j <= held[k] {
      NoneAfterNewRow(s, after, fates, cat, id, k, j);
    }
  }

  lemma CommitKeepsOrder(s: State, after: State, fates: seq<W.Fate>, cat: Catalog, i: nat, j: nat)
    requires StorageSound(s, cat) && Commits(s, after, fates, cat) && cat.autoincrement
    requires i < j < |after.status| && after.status[i].Stored? && after.status[j].Stored?
    ensures after.status[i].id < after.status[j].id
  {
    var held := HeldEntries(s.flush);
    var a := StoredCameFrom(s, after, fates, cat, i);
    var b := StoredCameFrom(s, after, fates, cat, j);
    hide Mark, StatusesOf, EntriesOf;
    if a >= 0 && b >= 0 {
      HeldAscend(s.status, held, s.queue.items, a, b);
      FatesAscend(s, after, fates, cat, a, b, after.status[i].id, after.status[j].id);
    } else if b >= 0 {
      assert StoredSomewhere(s.tables, s.deleted, s.status[i]);
      FatesAscend(s, after, fates, cat, b, b, after.status[j].id, after.status[j].id);
    } else if a >= 0 {
      StoredBeforeHeld(s.status, held, s.queue.items, j, i);
    }
  }

  lemma HeldAscend(status: seq<Status>, held: seq<nat>, queued: seq<nat>, a: nat, b: nat)
    requires PlacesSound(status, held, queued) && a < |held| && b < |held| && held[a] < held[b]
    ensures a < b
  {
    assert (held + queued)[a] == held[a] && (held + queued)[b] == held[b];
  }

  lemma StoredBeforeHeld(status: seq<Status>, held: seq<nat>, queued: seq<nat>, i: nat, j: nat)
    requires PlacesSound(status, held, queued) && i < |status| && j < |status|
    requires status[i].Stored? && status[j] == Held
    ensures i < j
  {
    assert InFlightStatus(status[j]);
  }

  /** Ids given by a commit ascend, and are new with AUTOINCREMENT. */
  lemma FatesAscend(s: State, after: State, fates: seq<W.Fate>, cat: Catalog, a: nat, b: nat, x: int, y: int)
    requires Commits(s, after, fates, cat) && cat.autoincrement && AssignedTo(fates, a, x) && AssignedTo(fates, b, y)
    ensures a < b ==> x < y
    ensures s.tables.sequence < y
  {
    hide PlacesSound, Mark, EntriesOf, StatusesOf, IdsSound, InStep, RowIn;
  }

  lemma CommitKeepsStorage(s: State, after: State, fates: seq<W.Fate>, cat: Catalog)
    requires StorageSound(s, cat) && Commits(s, after, fates, cat)
    ensures StorageSound(after, cat)
  {
    forall id | id in after.tables.rows ensures exists i :: RowOwned(after, cat, id, i) {
      var i := CommitKeepsOwner(s, after, fates, cat, id);
    }
    forall i | 0 <= i < |after.status| ensures StoredSomewhere(after.tables, after.deleted, after.status[i]) {
      if after.status[i].Stored? {
        var k := StoredCameFrom(s, after, fates, cat, i);
        assert StoredSomewhere(s.tables, s.deleted, s.status[i]);
      }
    }
    if cat.autoincrement {
      forall i, j | 0 <= i < j < |after.status| && after.status[i].Stored? && after.status[j].Stored?
        ensures after.status[i].id < after.status[j].id
      {
        CommitKeepsOrder(s, after, fates, cat, i, j);
      }
    }
  }
}
