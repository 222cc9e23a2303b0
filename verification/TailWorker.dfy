/**
 The tailing thread as an object: its loop, and each part of it up to the next file-system call. Every such part is
 exactly one step of the Tailer machine, so what the worker has done so far is a run of it. The disk belongs to other
 processes: the worker writes none of it.
 */
module TailWorker {
  import opened Results
  import opened Framing
  import opened Tailer

  /** What the worker meets at one file-system call: what other processes did before it, whether it fails, how much
      a read may return, and whether by then the grace period is over or a stop was requested. */
  datatype Tick = Tick(meanwhile: seq<Event>, fails: bool, n: nat, graceOver: bool, stop: bool)

  /** How many calls open_file still has to make. */
  function CallsLeft(phase: Phase): nat {
    match phase
    case Opening(_) => 3
    case Opened(_, _) => 2
    case Sizing(_, _) => 1
    case _ => 0
  }

  /** The call succeeds, its read takes as much as there is room for, no stop is requested, and up to it no process
      touches the file. */
  predicate Calm(t: Tick, inode: Inode, c: Settings) {
    !t.fails && !t.stop && t.n >= c.bufferSize && LeavesAlone(t.meanwhile, inode)
  }

  predicate LeavesAlone(events: seq<Event>, inode: Inode) {
    forall k :: 0 <= k < |events| && events[k].SetContent? ==> events[k].inode != inode
  }

  /** The ticks from one moment to a later one. */
  function Between(before: seq<Tick>, after: seq<Tick>): seq<Tick> {
    if |after| <= |before| then before[..|before| - |after|] else []
  }

  predicate AllCalm(ticks: seq<Tick>, inode: Inode, c: Settings) {
    c.bufferSize >= 1 && forall k :: 0 <= k < |ticks| ==> Calm(ticks[k], inode, c)
  }

  /** The segment goes to the end of the file, and if the file was only appended to, it is the file from where the
      segment began. */
  predicate ToTheEnd(last: Segment, disk: Disk) {
    var content := disk.Content(last.inode);
    && last.start + |last.fed| >= |content|
    && (last.appendedOnly && last.start <= |content| ==> last.fed == content[last.start..])
  }

  lemma EndIsReached(w: World, c: Settings)
    requires Accounted(w, c) && w.current.Some?
    ensures w.current.value.inode == w.now.inode
    ensures w.current.value.offset >= |w.disk.Content(w.now.inode)| ==> ToTheEnd(w.now, w.disk)
  {
  }

  predicate Later(before: seq<Tick>, after: seq<Tick>) {
    |after| <= |before| && after == before[|before| - |after|..]
  }

  lemma LaterStill(a: seq<Tick>, b: seq<Tick>, c: seq<Tick>)
    requires Later(a, b) && Later(b, c)
    ensures Later(a, c) && Between(a, c) == Between(a, b) + Between(b, c)
  {
    assert c == a[|a| - |b|..][|b| - |c|..];
    assert a == a[..|a| - |b|] + b;
  }

  lemma CalmThroughout(first: seq<Tick>, rest: seq<Tick>, inode: Inode, c: Settings)
    ensures AllCalm(first + rest, inode, c) <==> AllCalm(first, inode, c) && AllCalm(rest, inode, c)
  {
    if AllCalm(first + rest, inode, c) {
      assert forall k :: 0 <= k < |first| ==> (first + rest)[k] == first[k];
      assert forall k :: 0 <= k < |rest| ==> (first + rest)[|first| + k] == rest[k];
    }
  }

  /** Calm until now, and calm from then on. */
  lemma CalmInBoth(a: seq<Tick>, b: seq<Tick>, c: seq<Tick>, inode: Inode, settings: Settings)
    requires Later(a, b) && Later(b, c)
    ensures Later(a, c) && |c| <= |b| <= |a|
    ensures AllCalm(Between(a, c), inode, settings) <==>
              AllCalm(Between(a, b), inode, settings) && AllCalm(Between(b, c), inode, settings)
  {
    LaterStill(a, b, c);
    CalmThroughout(Between(a, b), Between(b, c), inode, settings);
  }

  lemma NotYetLater(ticks: seq<Tick>)
    ensures Later(ticks, ticks)
  {
  }

  lemma OneTick(before: seq<Tick>, after: seq<Tick>, t: Tick, inode: Inode, settings: Settings)
    requires before != [] ==> t == before[0] && after == before[1..]
    requires before == [] ==> after == [] && t.meanwhile == []
    ensures Later(before, after)
    ensures AllCalm(Between(before, after), inode, settings) ==> LeavesAlone(t.meanwhile, inode)
  {
    assert before != [] ==> Between(before, after) == [t];
  }

  lemma SizingIsAtEnd(w: World, c: Settings)
    requires Accounted(w, c)
    ensures w.phase.Sizing? ==> w.firstOpen && c.startAtEnd
    ensures w.firstOpen ==> w.current.None?
  {
  }

  /** A read with room for more than it returned took all there was. */
  lemma ShortReadIsLast(w: World, n: nat, c: Settings)
    requires w.current.Some?
    ensures var count := |NextBytes(w, n, c)|;
            n >= c.bufferSize >= 1 && (count == 0 || count < c.bufferSize) ==>
              w.current.value.offset + count >= |w.disk.Content(w.current.value.inode)|
  {
  }

  lemma RunMore(disk: Disk, events: seq<Event>, e: Event, c: Settings)
    ensures Run(Start(disk), events + [e], c) == Step(Run(Start(disk), events, c), e, c)
  {
    assert (events + [e])[..|events|] == events;
  }

  class Worker {
    const settings: Settings
    const file: FileHarvester          // offset and framing fields of the open file
    var disk: Disk
    var phase: Phase
    var firstOpen: bool
    var isOpen: bool
    var inode: Inode                   // what the open stream reads
    var identity: Inode                // what the path was when it was opened
    var ticks: seq<Tick>               // what is still to come; a stop is requested when it runs out
    var stopFlag: bool
    ghost var closed: seq<Segment>
    ghost var segment: Segment
    ghost const initial: Disk
    ghost var trace: seq<Event>        // every step so far

    constructor (settings: Settings, disk: Disk, ticks: seq<Tick>)
      ensures this.settings == settings && initial == disk && trace == [] && this.ticks == ticks && !stopFlag
      ensures Valid() && Now() == Start(disk) && fresh(file)
    {
      this.settings, this.disk, phase := settings, disk, Top;
      firstOpen, isOpen, inode, identity := true, false, 0, 0;
      this.ticks, stopFlag := ticks, false;
      closed, segment := [], NO_SEGMENT;
      initial, trace := disk, [];
      file := new FileHarvester(settings.options);
      new;
      TailingIsAccounted(disk, [], settings);
      hide Accounted;
    }

    predicate Consistent()
      reads this
    {
      && file.options == settings.options
      && (isOpen <==> phase == Reading || phase == CheckingIdentity || phase == CheckingSize || phase == Draining)
    }

    /** The worker's fields are those of a run of the machine, and all it ever handed over is accounted for. */
    ghost predicate Valid()
      reads this, file
    {
      Consistent() && Now() == Run(Start(initial), trace, settings) && Accounted(Now(), settings)
    }

    ghost function Now(): World
      reads this, file
    {
      World(disk, phase, firstOpen, if isOpen then Some(OpenFile(inode, identity, file.offset, file.State())) else None,
            file.processed, closed, segment)
    }

    predicate StopRequested()
      reads this
    {
      stopFlag || ticks == []
    }

    /** Closes one step of the worker in its history. */
    ghost method Record(was: World, e: Event)
      requires Consistent() && was == Run(Start(initial), trace, settings) && Now() == Step(was, e, settings)
      modifies this`trace
      ensures Valid() && trace == old(trace) + [e]
    {
      trace := trace + [e];
      RunMore(initial, old(trace), e, settings);
      TailingIsAccounted(initial, trace, settings);
      hide Run, Step, Accounted;
    }

    // ── Steps ──────────────────────────────────────────────────────────────

    /** Other processes change the disk between any two steps. */
    method Interfere(e: Event)
      requires Valid() && (e.SetPath? || e.SetContent?)
      modifies this`disk, this`segment, this`trace
      ensures Valid() && Now() == Step(old(Now()), e, settings)
      ensures forall i :: e.SetPath? || e.inode != i ==> disk.Content(i) == old(disk.Content(i))
    {
      hide Run, Accounted;
      ghost var was := Now();
      match e {
        case SetPath(to) => disk := disk.(path := to);
        case SetContent(i, content) =>
          if i == segment.inode && !(disk.Content(i) <= content) {
            segment := segment.(appendedOnly := false);
          }
          disk := disk.(files := disk.files[i := content]);
      }
      Record(was, e);
    }

    method Adopt(stream: Inode, before: Inode, offset: nat)
      requires Consistent() && !isOpen
      modifies this`inode, this`identity, this`isOpen, this`firstOpen, this`phase, this`segment, file
      ensures Consistent() && Now() == Tailer.Adopt(old(Now()), stream, before, offset)
      ensures isOpen && file.offset == offset
    {
      inode, identity, isOpen := stream, before, true;
      file.offset := offset;
      file.pendingLine, file.droppingOverlongLine := "", false;
      firstOpen := false;
      phase := Reading;
      segment := Segment(stream, offset, "", true);
    }

    /** open_file, from one file-system call to the next. */
    method OpenStep()
      requires Valid() && (phase == Top || CallsLeft(phase) > 0)
      modifies this`inode, this`identity, this`isOpen, this`firstOpen, this`phase, this`segment, this`trace, file
      ensures Valid() && Now() == Step(old(Now()), Observe, settings)
      ensures phase == Top || phase == Reading || CallsLeft(phase) > 0
      ensures old(phase) != Top ==> CallsLeft(phase) < CallsLeft(old(phase))
      ensures isOpen && !old(isOpen) ==>
                && disk.path.Some?
                && file.offset == if old(firstOpen) && settings.startAtEnd then |disk.Content(disk.path.value)| else 0
    {
      SizingIsAtEnd(Now(), settings);
      hide Run, Accounted;
      ghost var was := Now();
      match phase {
        case Top =>
          if disk.path.Some? {
            phase := Opening(disk.path.value);
          }
        case Opening(before) =>
          phase := if disk.path.Some? then Opened(before, disk.path.value) else Top;
        case Opened(before, stream) =>
          if disk.path != Some(before) {
            phase := Top;
          } else if firstOpen && settings.startAtEnd {
            phase := Sizing(before, stream);
          } else {
            Adopt(stream, before, 0);
          }
        case Sizing(before, stream) =>
          if disk.path.None? {
            phase := Top;
          } else {
            Adopt(stream, before, |disk.Content(disk.path.value)|);
          }
      }
      Record(was, Observe);
    }

    method NextChunk(n: nat) returns (bytes: string)
      requires Consistent() && isOpen
      ensures bytes == NextBytes(Now(), n, settings)
    {
      var content := disk.Content(inode);
      if |content| <= file.offset {
        return "";
      }
      var k := Min(Min(n, settings.bufferSize), |content| - file.offset);
      bytes := content[file.offset..file.offset + k];
    }

    /** One read of the stream and what it feeds the framer. */
    method ReadStep(n: nat) returns (count: nat)
      requires Valid() && (phase == Reading || phase == Draining)
      modifies this`phase, this`segment, this`trace, file
      ensures Valid() && Now() == Step(old(Now()), Read(n), settings)
      ensures count == |NextBytes(old(Now()), n, settings)|
      ensures file.offset == old(file.offset) + count
      ensures phase == if old(phase) == Reading && (count == 0 || count < settings.bufferSize) then CheckingIdentity
                       else old(phase)
    {
      hide Feed, NextBytes, Run, Accounted;
      ghost var was := Now();
      var bytes := NextChunk(n);
      file.offset := file.offset + |bytes|;
      file.ConsumeBytes(bytes);
      segment := segment.(fed := segment.fed + bytes);
      if phase == Reading && (bytes == "" || |bytes| < settings.bufferSize) {
        phase := CheckingIdentity;
      }
      count := |bytes|;
      Record(was, Read(n));
    }

    method CheckIdentity()
      requires Valid() && phase == CheckingIdentity
      modifies this`phase, this`trace
      ensures Valid() && Now() == Step(old(Now()), Observe, settings) && (phase == Draining || phase == CheckingSize)
    {
      hide Run, Accounted;
      ghost var was := Now();
      phase := if disk.path != Some(identity) then Draining else CheckingSize;
      Record(was, Observe);
    }

    method CheckSize()
      requires Valid() && phase == CheckingSize
      modifies this`phase, this`closed, this`segment, this`trace, file
      ensures Valid() && Now() == Step(old(Now()), Observe, settings) && phase == Reading
    {
      hide Run, Accounted;
      ghost var was := Now();
      if disk.path.Some? && |disk.Content(disk.path.value)| < file.offset {
        file.FlushOrDropPendingLine();
        file.offset := 0;
        file.droppingOverlongLine := false;
        closed := closed + [segment];
        segment := Segment(segment.inode, 0, "", true);
      }
      phase := Reading;
      Record(was, Observe);
    }

    /** A file-system call that fails. */
    method CallFails()
      requires Valid()
      modifies this`phase, this`trace
      ensures Valid() && Now() == Step(old(Now()), Fail, settings)
    {
      hide Run, Accounted;
      ghost var was := Now();
      if phase.Opening? || phase.Opened? || phase.Sizing? {
        phase := Top;
      } else if phase == CheckingIdentity {
        phase := Draining;
      } else if phase == CheckingSize {
        phase := Reading;
      }
      Record(was, Fail);
    }

    method CloseFile(next: Phase)
      requires Consistent() && isOpen && (next == Top || next == Stopped)
      modifies this`phase, this`isOpen, this`closed, file
      ensures Consistent() && Now() == Tailer.CloseFile(old(Now()), next, settings.options)
      ensures closed == old(closed) + [segment]
    {
      file.FlushOrDropPendingLine();
      closed := closed + [segment];
      isOpen := false;
      phase := next;
    }

    method GraceOver()
      requires Valid() && phase == Draining
      modifies this`phase, this`isOpen, this`closed, this`trace, file
      ensures Valid() && Now() == Step(old(Now()), DrainOver, settings) && phase == Top
      ensures closed == old(closed) + [segment]
    {
      hide Run, Accounted;
      ghost var was := Now();
      CloseFile(Top);
      Record(was, DrainOver);
    }

    method ShutDown()
      requires Valid()
      modifies this`phase, this`isOpen, this`closed, this`trace, file
      ensures Valid() && Now() == Step(old(Now()), Stop, settings) && phase == Stopped
    {
      hide Run, Accounted;
      ghost var was := Now();
      if isOpen {
        CloseFile(Stopped);
      } else {
        phase := Stopped;
      }
      Record(was, Stop);
    }

    // ── The loops ──────────────────────────────────────────────────────────

    method LetOthersRun(events: seq<Event>)
      requires Valid()
      modifies this`disk, this`segment, this`trace
      ensures Valid()
      ensures forall i :: LeavesAlone(events, i) ==> disk.Content(i) == old(disk.Content(i))
    {
      hide Run, Accounted, Step;
      for k := 0 to |events|
        invariant Valid()
        invariant forall i :: LeavesAlone(events, i) ==> disk.Content(i) == old(disk.Content(i))
      {
        if events[k].SetPath? || events[k].SetContent? {
          Interfere(events[k]);
        }
      }
    }

    /** Up to the next file-system call: time passes and other processes run. */
    method NextTick() returns (t: Tick)
      requires Valid()
      modifies this`disk, this`segment, this`trace, this`ticks, this`stopFlag
      ensures Valid() && (old(ticks) != [] ==> t == old(ticks)[0] && ticks == old(ticks)[1..])
      ensures old(ticks) == [] ==> ticks == [] && t.stop && t.meanwhile == []
      ensures stopFlag == (old(stopFlag) || t.stop)
      ensures forall i :: LeavesAlone(t.meanwhile, i) ==> disk.Content(i) == old(disk.Content(i))
    {
      if ticks == [] {
        t := Tick([], false, 0, true, true);
      } else {
        t, ticks := ticks[0], ticks[1..];
      }
      stopFlag := stopFlag || t.stop;
      hide Run, Accounted;
      LetOthersRun(t.meanwhile);
    }

    /** Opens the path, or leaves it closed to be tried again later. */
    method OpenFileAtPath()
      requires Valid() && phase == Top
      modifies this, file
      ensures Valid() && (phase == Top || phase == Reading)
      ensures |ticks| < |old(ticks)| || ticks == []
    {
      hide Run, Accounted, Step;
      var t := NextTick();
      if !t.fails {
        OpenStep();
      }
      while CallsLeft(phase) > 0
        invariant Valid() && (phase == Top || phase == Reading || CallsLeft(phase) > 0)
        invariant |ticks| < |old(ticks)| || ticks == []
        decreases CallsLeft(phase)
      {
        t := NextTick();
        if t.fails {
          FailOpening();
        } else {
          OpenStep();
        }
      }
    }

    method FailOpening()
      requires Valid() && CallsLeft(phase) > 0
      modifies this`phase, this`trace
      ensures Valid() && phase == Top
    {
      hide Run, Accounted;
      CallFails();
    }

    /** The worker has read, undisturbed, to the end of the open file. */
    ghost predicate AtEnd()
      reads this, file
    {
      file.offset >= |disk.Content(inode)|
    }

    /** Reads until a read comes back short or empty, or a stop is requested. A failed seek or read is an empty one.
        Unless stopped, a pass over a file nothing else touches, without failed or short reads, ends at its end. */
    method ReadAvailable() returns (totalRead: nat)
      requires Valid() && (phase == Reading || phase == Draining)
      modifies this, file
      ensures Valid() && (phase == old(phase) || (old(phase) == Reading && phase == CheckingIdentity))
      ensures Later(old(ticks), ticks) && (old(!StopRequested()) ==> |ticks| < |old(ticks)|)
      ensures !StopRequested() && old(phase) == Reading ==> phase == CheckingIdentity
      ensures inode == old(inode) && closed == old(closed)
      ensures AllCalm(Between(old(ticks), ticks), inode, settings) ==> disk.Content(inode) == old(disk.Content(inode))
      ensures AllCalm(Between(old(ticks), ticks), inode, settings) && !StopRequested() ==> AtEnd()
    {
      hide Run, Accounted, Step, NextBytes;
      totalRead := 0;
      while !StopRequested()
        invariant Valid() && phase == old(phase)
        invariant Later(old(ticks), ticks)
        invariant old(!StopRequested()) ==> |ticks| < |old(ticks)| || !StopRequested()
        invariant inode == old(inode) && closed == old(closed)
        invariant AllCalm(Between(old(ticks), ticks), inode, settings) ==>
          disk.Content(inode) == old(disk.Content(inode))
        decreases |ticks|
      {
        ghost var before := ticks;
        var t := NextTick();
        CalmInBoth(old(ticks), before, ticks, inode, settings);
        assert Between(before, ticks) == [t];
        ghost var now, n := Now(), if t.fails then 0 else t.n;
        var count := ReadStep(if t.fails then 0 else t.n);
        totalRead := totalRead + count;
        if count == 0 || count < settings.bufferSize {
          ShortReadIsLast(now, n, settings);
          break;
        }
      }
    }

    /** Reads on until the grace period is over, then closes the file: having read it to its end, if no stop comes
        and nothing else touches the file or makes a read fail or come back short. */
    method DrainForGracePeriod()
      requires Valid() && phase == Draining
      modifies this, file
      ensures Valid() && phase == Top && |ticks| <= |old(ticks)|
      ensures |closed| == |old(closed)| + 1 && closed[..|old(closed)|] == old(closed)
      ensures closed[|old(closed)|].inode == old(inode)
      ensures AllCalm(Between(old(ticks), ticks), old(inode), settings) && !StopRequested() ==>
        && disk.Content(old(inode)) == old(disk.Content(inode))
        && ToTheEnd(closed[|old(closed)|], disk)
    {
      hide Run, Accounted, Step, AllCalm, Between, ToTheEnd, LeavesAlone, Later;
      NotYetLater(ticks);
      while !StopRequested()
        invariant Valid() && phase == Draining && Later(old(ticks), ticks) && |ticks| <= |old(ticks)|
        invariant inode == old(inode) && closed == old(closed)
        invariant AllCalm(Between(old(ticks), ticks), inode, settings) ==>
          disk.Content(inode) == old(disk.Content(inode))
        decreases |ticks|
      {
        ghost var before := ticks;
        var bytesRead := ReadAvailable();
        CalmInBoth(old(ticks), before, ticks, inode, settings);
        before := ticks;
        var t := NextTick();
        OneTick(before, ticks, t, inode, settings);
        CalmInBoth(old(ticks), before, ticks, inode, settings);
        if t.graceOver {
          break;
        }
      }
      EndIsReached(Now(), settings);
      GraceOver();
    }

    /** The two checks after a reading pass, and what they lead to. */
    method CheckPath()
      requires Valid() && phase == CheckingIdentity
      modifies this, file
      ensures Valid() && (phase == Top || phase == Reading) && |ticks| <= |old(ticks)|
    {
      hide Run, Accounted;
      var t := NextTick();
      if t.fails {
        CallFails();
      } else {
        CheckIdentity();
      }
      if phase == Draining {
        DrainForGracePeriod();
        return;
      }
      t := NextTick();
      if t.fails {
        CallFails();
      } else {
        CheckSize();
      }
    }

    /** The thread. Whatever other processes do and whichever calls fail, when it has stopped, the lines it handed
        over are, file by file, the framed lines of what it read plus the flushed partial line; and it got there by
        a run of the machine, so all that is proved of runs holds of it. */
    method RunUntilStopped()
      requires Valid() && phase == Top
      modifies this, file
      ensures Valid() && phase == Stopped && Now() == Run(Start(initial), trace, settings)
      ensures file.processed == SegmentLines(closed, settings.options)
      ensures forall k :: 0 <= k < |closed| && (k > 0 || !settings.startAtEnd) ==> closed[k].start == 0
    {
      hide Run, Accounted, Step;
      while !StopRequested()
        invariant Valid() && (phase == Top || phase == Reading)
        decreases |ticks|
      {
        if phase == Top {
          OpenFileAtPath();
          if phase == Top {
            continue;
          }
        }
        var bytesRead := ReadAvailable();
        if StopRequested() {
          break;
        }
        CheckPath();
      }
      ShutDown();
      ClosedIsAll(Now(), settings);
    }
  }

  lemma ClosedIsAll(w: World, c: Settings)
    requires Accounted(w, c) && w.phase == Stopped
    ensures w.processed == SegmentLines(w.closed, c.options)
    ensures forall k :: 0 <= k < |w.closed| && (k > 0 || !c.startAtEnd) ==> w.closed[k].start == 0
  {
    assert SegmentLines(w.closed, c.options) + [] == SegmentLines(w.closed, c.options);
  }
}
