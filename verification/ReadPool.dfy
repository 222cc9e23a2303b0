/**
 The pool of read connections. Each method is one critical section under the pool's mutex; acquiring happens at a
 moment when the condition variable's predicate holds. A lease is one object that acquires when it is made and
 releases when it goes.
 */
module ReadPool {
  import opened Results

  datatype Reader = Reader(number: nat)

  datatype Lease = Lease(number: nat)

  datatype Pool = Pool(readers: seq<Reader>, available: seq<Reader>, closed: bool)

  function Opened(size: nat): Pool {
    var readers := seq(size, i requires 0 <= i => Reader(i));
    Pool(readers, readers, false)
  }

  /** The predicate an acquirer waits for. */
  predicate CanAcquire(p: Pool) { p.closed || p.available != [] }

  function Acquired(p: Pool): (Pool, Result<Reader>)
    requires CanAcquire(p)
  {
    if p.closed then (p, Error("read database pool is closed"))
    else (p.(available := p.available[1..]), Ok(p.available[0]))
  }

  function Released(p: Pool, r: Reader): Pool {
    if p.closed then p else p.(available := p.available + [r])
  }

  function Shut(p: Pool): Pool {
    if p.closed then p else Pool([], [], true)
  }

  // ── Every interleaving ─────────────────────────────────────────────────────

  datatype System = System(pool: Pool, waiting: set<Lease>, leases: map<Lease, Reader>)

  datatype Event = Ask(lease: Lease) | Wake(lease: Lease) | Drop(lease: Lease) | Close

  /** An event that cannot happen now changes nothing. */
  function Step(s: System, e: Event): System {
    match e
    case Ask(c) =>
      if c in s.waiting || c in s.leases then s else s.(waiting := s.waiting + {c})
    case Wake(c) =>
      if c !in s.waiting || !CanAcquire(s.pool) then s
      else
        var (pool, got) := Acquired(s.pool);
        var rest := s.(pool := pool, waiting := s.waiting - {c});
        if got.Ok? then rest.(leases := s.leases[c := got.value]) else rest
    case Drop(c) =>
      if c !in s.leases then s
      else s.(pool := Released(s.pool, s.leases[c]), leases := s.leases - {c})
    case Close => s.(pool := Shut(s.pool))
  }

  function Run(size: nat, events: seq<Event>): System {
    if events == [] then System(Opened(size), {}, map[])
    else Step(Run(size, events[..|events| - 1]), events[|events| - 1])
  }

  predicate Leased(leases: map<Lease, Reader>, r: Reader) {
    exists c :: c in leases && leases[c] == r
  }

  predicate Distinct<T(==)>(xs: seq<T>) {
    forall i, j :: 0 <= i < j < |xs| ==> xs[i] != xs[j]
  }

  /** Every connection is either available, once, or leased, once. */
  ghost predicate Partition(size: nat, s: System) {
    && s.pool.readers == Opened(size).readers
    && Distinct(s.pool.available)
    && (forall c, d :: c in s.leases && d in s.leases && s.leases[c] == s.leases[d] ==> c == d)
    && (forall r :: r in s.pool.readers ==> (r in s.pool.available <==> !Leased(s.leases, r)))
    && (forall k :: 0 <= k < |s.pool.available| ==> s.pool.available[k] in s.pool.readers)
    && (forall c :: c in s.leases ==> s.leases[c] in s.pool.readers)
  }

  ghost predicate PoolSound(size: nat, s: System) {
    && (forall c :: c in s.waiting ==> c !in s.leases)
    && (if s.pool.closed then s.pool.available == [] && s.pool.readers == [] else Partition(size, s))
  }

  /** Until Close, in every interleaving, available and leased connections partition the readers without
      duplicates, and an acquirer is held up exactly when every connection is leased. Afterwards nothing is
      available. */
  lemma {:induction false} PoolIsPartitioned(size: nat, events: seq<Event>)
    ensures var s := Run(size, events);
      && (s.pool.closed <==> Close in events)
      && (forall c :: c in s.waiting ==> c !in s.leases)
      && (Close !in events ==> Partition(size, s))
      && (Close !in events ==> (!CanAcquire(s.pool) <==> forall r :: r in Opened(size).readers ==> Leased(s.leases, r)))
      && (Close in events ==> s.pool.available == [] && s.pool.readers == [])
  {
    if events == [] {
      InitiallyPartitioned(size);
    } else {
      var k := |events| - 1;
      var before := Run(size, events[..k]);
      PoolIsPartitioned(size, events[..k]);
      assert events == events[..k] + [events[k]];
      StepKeepsSound(size, before, events[k]);
    }
    var s := Run(size, events);
    if Close !in events {
      HeldUpExactlyWhenAllLeased(size, s);
    }
  }

  lemma InitiallyPartitioned(size: nat)
    ensures Partition(size, System(Opened(size), {}, map[]))
  {
  }

  lemma HeldUpExactlyWhenAllLeased(size: nat, s: System)
    requires Partition(size, s) && !s.pool.closed
    ensures !CanAcquire(s.pool) <==> forall r :: r in Opened(size).readers ==> Leased(s.leases, r)
  {
    if s.pool.available != [] {
      assert s.pool.available[0] in s.pool.readers && !Leased(s.leases, s.pool.available[0]);
    }
  }

  lemma StepKeepsSound(size: nat, s: System, e: Event)
    requires PoolSound(size, s)
    ensures PoolSound(size, Step(s, e))
    ensures Step(s, e).pool.closed <==> s.pool.closed || e.Close?
  {
    if !s.pool.closed {
      match e
      case Wake(c) =>
        if c in s.waiting && CanAcquire(s.pool) {
          WakeKeepsPartition(size, s, c);
        }
      case Drop(c) =>
        if c in s.leases {
          DropKeepsPartition(size, s, c);
        }
      case Ask(c) =>
      case Close =>
    }
  }

  lemma WakeKeepsPartition(size: nat, s: System, c: Lease)
    requires Partition(size, s) && !s.pool.closed && c in s.waiting && c !in s.leases && s.pool.available != []
    ensures Partition(size, Step(s, Wake(c)))
  {
    var after := Step(s, Wake(c));
    var taken := s.pool.available[0];
    assert after.leases == s.leases[c := taken] && after.pool.available == s.pool.available[1..];
    assert !Leased(s.leases, taken);
    forall r | r in s.pool.readers ensures r in after.pool.available <==> !Leased(after.leases, r) {
      assert r in s.pool.available <==> r == taken || r in after.pool.available;
      if Leased(s.leases, r) {
        var d :| d in s.leases && s.leases[d] == r;
        assert d in after.leases && after.leases[d] == r;
      }
      if r == taken {
        assert c in after.leases && after.leases[c] == r;
      }
    }
  }

  lemma DropKeepsPartition(size: nat, s: System, c: Lease)
    requires Partition(size, s) && !s.pool.closed && c in s.leases
    ensures Partition(size, Step(s, Drop(c)))
  {
    var after := Step(s, Drop(c));
    var back := s.leases[c];
    assert Leased(s.leases, back);
    forall r | r in s.pool.readers ensures r in after.pool.available <==> !Leased(after.leases, r) {
      if r != back && Leased(s.leases, r) {
        var d :| d in s.leases && s.leases[d] == r;
        assert d in after.leases && after.leases[d] == r;
      }
    }
  }

  /** No connection is ever held by two leases before Close. */
  lemma NoConnectionIsLeasedTwice(size: nat, events: seq<Event>, c: Lease, d: Lease)
    requires Close !in events
    requires var leases := Run(size, events).leases; c in leases && d in leases && leases[c] == leases[d]
    ensures c == d
  {
    PoolIsPartitioned(size, events);
  }

  /** After Close no acquire succeeds and no release adds anything: leases only go. */
  lemma {:induction false} NothingIsLeasedAfterClose(size: nat, events: seq<Event>, more: seq<Event>)
    requires Close in events
    ensures Run(size, events + more).leases.Keys <= Run(size, events).leases.Keys
    ensures Run(size, events + more).pool == Pool([], [], true)
  {
    PoolIsPartitioned(size, events);
    if more == [] {
      assert events + more == events;
    } else {
      var k := |more| - 1;
      assert (events + more)[..|events + more| - 1] == events + more[..k];
      NothingIsLeasedAfterClose(size, events, more[..k]);
    }
  }

  /** Waking up, an acquirer goes on waiting exactly while every connection is leased; otherwise it holds one, unless
      the pool is closed, and then it leaves without. */
  lemma WokenAcquirerIsServed(size: nat, events: seq<Event>, lease: Lease)
    requires lease in Run(size, events).waiting
    ensures var s, after := Run(size, events), Run(size, events + [Wake(lease)]);
            var allLeased := forall r :: r in Opened(size).readers ==> Leased(s.leases, r);
            && (lease in after.waiting <==> Close !in events && allLeased)
            && (lease in after.leases <==> Close !in events && !allLeased)
  {
    PoolIsPartitioned(size, events);
    var s := Run(size, events);
    assert (events + [Wake(lease)])[..|events|] == events;
    assert Run(size, events + [Wake(lease)]) == Step(s, Wake(lease));
    hide Run, Partition, Opened, Leased;
  }

  // ── First in, first out ────────────────────────────────────────────────────

  /** The connections handed out, in order, and those given back. */
  function Served(size: nat, events: seq<Event>): seq<Reader> {
    if events == [] then []
    else
      var before, after, e := Run(size, events[..|events| - 1]), Run(size, events), events[|events| - 1];
      Served(size, events[..|events| - 1])
      + if e.Wake? && e.lease in after.leases && e.lease !in before.leases then [after.leases[e.lease]] else []
  }

  function Returned(size: nat, events: seq<Event>): seq<Reader> {
    if events == [] then []
    else
      var before, e := Run(size, events[..|events| - 1]), events[|events| - 1];
      Returned(size, events[..|events| - 1])
      + if e.Drop? && e.lease in before.leases then [before.leases[e.lease]] else []
  }

  /** Until Close connections are handed out in turn: what was handed out and what is available are, in this order, the
      connections opened and then those given back. */
  lemma {:induction false} ConnectionsAreServedInTurn(size: nat, events: seq<Event>)
    requires Close !in events
    ensures Served(size, events) + Run(size, events).pool.available == Opened(size).readers + Returned(size, events)
  {
    if events != [] {
      var k := |events| - 1;
      var init, e := events[..k], events[k];
      ConnectionsAreServedInTurn(size, init);
      PoolIsPartitioned(size, init);
      var before := Run(size, init);
      assert Run(size, events) == Step(before, e);
      hide Run, Opened;
      ServedStep(before, e, Served(size, init), Opened(size).readers + Returned(size, init));
    }
  }

  lemma ServedStep(s: System, e: Event, served: seq<Reader>, all: seq<Reader>)
    requires !s.pool.closed && e != Close && served + s.pool.available == all
    requires forall c :: c in s.waiting ==> c !in s.leases
    ensures var after := Step(s, e);
            var woken := e.Wake? && e.lease in after.leases && e.lease !in s.leases;
            var out := if woken then [after.leases[e.lease]] else [];
            var back := if e.Drop? && e.lease in s.leases then [s.leases[e.lease]] else [];
            served + out + after.pool.available == all + back
  {
    if e.Wake? && e.lease in s.waiting && s.pool.available != [] {
      assert s.pool.available == [s.pool.available[0]] + s.pool.available[1..];
    }
  }

  // ── The pool's code ────────────────────────────────────────────────────────

  class ReadDatabasePool {
    var readers: seq<Reader>
    var available: seq<Reader>
    var closed: bool

    constructor (size: nat)
      ensures Contents() == Opened(size)
    {
      readers, available, closed := [], [], false;
      new;
      for i := 0 to size
        invariant readers == available == seq(i, k requires 0 <= k => Reader(k)) && !closed
      {
        var db := Reader(i);
        available := available + [db];
        readers := readers + [db];
      }
    }

    function Contents(): Pool
      reads this
    {
      Pool(readers, available, closed)
    }

    method Close()
      modifies this
      ensures Contents() == Shut(old(Contents()))
    {
      if closed {
        return;
      }
      closed := true;
      while available != []
        invariant closed && readers == old(readers)
        decreases |available|
      {
        available := available[1..];
      }
      readers := [];
    }

    /** Called when the wait ends. */
    method Acquire() returns (r: Result<Reader>)
      requires CanAcquire(Contents())
      modifies this
      ensures (Contents(), r) == Acquired(old(Contents()))
    {
      if closed {
        return Error("read database pool is closed");
      }
      var db := available[0];
      available := available[1..];
      r := Ok(db);
    }

    method Release(db: Reader)
      modifies this
      ensures Contents() == Released(old(Contents()), db)
    {
      if closed {
        return;
      }
      available := available + [db];
    }
  }
}
