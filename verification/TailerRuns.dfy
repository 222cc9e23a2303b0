/** How often a file is read, exactly when it is read again from its start, and runs in which that repeats lines. */
module TailerRuns {
  import opened Results
  import opened Sequences
  import opened Framing
  import opened Tailer

  // ── What makes the worker leave its place ──────────────────────────────────

  /** An identity check that fails or sees another path, or a size check that sees a file shorter than the
      offset. */
  predicate Disturbs(w: World, e: Event) {
    w.current.Some? &&
    if w.phase == CheckingIdentity then e == Fail || (e == Observe && w.disk.path != Some(w.current.value.identity))
    else
      && w.phase == CheckingSize && e == Observe
      && w.disk.path.Some? && |w.disk.Content(w.disk.path.value)| < w.current.value.offset
  }

  function Disturbances(w: World, events: seq<Event>, c: Settings): nat {
    if events == [] then 0
    else
      var before, e := events[..|events| - 1], events[|events| - 1];
      Disturbances(w, before, c) + (if Disturbs(Run(w, before, c), e) then 1 else 0)
  }

  /** Readings that ended, or are about to when the grace period is over. */
  function Ended(w: World): nat {
    |w.closed| + (if w.phase == Draining then 1 else 0)
  }

  /** Over every interleaving with other processes, until it is stopped, the worker ends a reading exactly once
      for each such check, and for no other reason. */
  lemma {:induction false} ReadingsEndExactlyByDisturbances(disk: Disk, events: seq<Event>, c: Settings)
    ensures var w := Run(Start(disk), events, c);
            w.phase != Stopped ==> Ended(w) == Disturbances(Start(disk), events, c)
  {
    if events != [] {
      var before := events[..|events| - 1];
      ReadingsEndExactlyByDisturbances(disk, before, c);
      TailingIsAccounted(disk, before, c);
      StepEnds(Run(Start(disk), before, c), events[|events| - 1], c);
      hide Step, Disturbs, OpenAccounted, LinesAccounted, StartsAccounted;
    }
  }

  lemma StepEnds(w: World, e: Event, c: Settings)
    requires OpenAccounted(w, c.options)
    ensures var after := Step(w, e, c);
            after.phase != Stopped ==>
              w.phase != Stopped && Ended(after) == Ended(w) + (if Disturbs(w, e) then 1 else 0)
  {
    hide Feed, Residue, ClosePending, NextBytes, Covers;
  }

  // ── One file under one path ────────────────────────────────────────────────

  /** No other file takes the path of file i, and i is only appended to. Everything else may happen: the path
      may vanish and come back, calls may fail, and other files may change at will. */
  predicate Grows(w: World, e: Event, i: Inode) {
    match e
    case SetPath(to) => to == None || to == Some(i)
    case SetContent(inode, content) => inode == i ==> w.disk.Content(i) <= content
    case _ => true
  }

  predicate OnlyGrows(w: World, events: seq<Event>, i: Inode, c: Settings) {
    events == [] ||
    (OnlyGrows(w, events[..|events| - 1], i, c) && Grows(Run(w, events[..|events| - 1], c), events[|events| - 1], i))
  }

  ghost predicate OneFile(w: World, i: Inode) {
    && (w.disk.path == None || w.disk.path == Some(i))
    && (w.phase.Opening? ==> w.phase.before == i)
    && (w.phase.Opened? ==> w.phase.before == w.phase.inode == i)
    && (w.phase.Sizing? ==> w.phase.identity == w.phase.inode == i)
    && (w.current.Some? ==>
          && w.current.value.identity == w.now.inode == i
          && w.now.appendedOnly && w.now.start <= |w.disk.Content(i)|)
    && (forall k :: 0 <= k < |w.closed| ==>
          w.closed[k].inode == i && Covers(w.disk.Content(i), w.closed[k].start, w.closed[k].fed))
  }

  lemma CoversLonger(content: string, more: string, start: nat, fed: string)
    requires Covers(content, start, fed) && content <= more
    ensures Covers(more, start, fed)
  {
  }

  lemma OneFileStep(w: World, e: Event, i: Inode, c: Settings)
    requires OneFile(w, i) && OpenAccounted(w, c.options) && Grows(w, e, i)
    ensures OneFile(Step(w, e, c), i)
  {
    hide Feed, Framed, Residue, ClosePending, NextBytes, Covers;
    if e.SetContent? && e.inode == i {
      forall k | 0 <= k < |w.closed| ensures Covers(e.content, w.closed[k].start, w.closed[k].fed) {
        CoversLonger(w.disk.Content(i), e.content, w.closed[k].start, w.closed[k].fed);
      }
    }
  }

  lemma {:induction false} RunIsOneFile(disk: Disk, events: seq<Event>, i: Inode, c: Settings)
    requires (disk.path == None || disk.path == Some(i)) && OnlyGrows(Start(disk), events, i, c)
    ensures OneFile(Run(Start(disk), events, c), i)
  {
    if events != [] {
      var before := events[..|events| - 1];
      RunIsOneFile(disk, before, i, c);
      TailingIsAccounted(disk, before, c);
      OneFileStep(Run(Start(disk), before, c), events[|events| - 1], i, c);
      hide Step, OneFile;
    }
  }

  /** The open file was opened, or begun again, before: everything from its start is ingested once more. */
  predicate ReadAgain(w: World) {
    exists k :: 0 <= k < |w.closed| && w.closed[k].inode == w.now.inode
  }

  /** However reads, polls, appends, failures and changes elsewhere interleave, a file whose path no other file
      takes is read from its start again if and only if an identity check failed or found the path gone, or a
      size check found it shorter. Without that it is ingested exactly once from where it was opened, no line
      lost, split or repeated; with it, everything from its start is ingested again. */
  lemma GrowingFileIsTailedExactlyOnce(disk: Disk, events: seq<Event>, i: Inode, c: Settings)
    requires (disk.path == None || disk.path == Some(i)) && OnlyGrows(Start(disk), events, i, c)
    requires Run(Start(disk), events, c).current.Some? && Run(Start(disk), events, c).phase != Draining
    ensures var w := Run(Start(disk), events, c);
            var content, offset := w.disk.Content(i), w.current.value.offset;
            && w.now.inode == i && w.now.start <= offset <= |content|
            && (ReadAgain(w) <==> Disturbances(Start(disk), events, c) > 0)
            && (!ReadAgain(w) ==>
                  w.processed == Framed(content[w.now.start..offset], c.options)
                  && (!c.startAtEnd ==> w.now.start == 0))
            && (ReadAgain(w) ==>
                  w.now.start == 0
                  && w.processed == SegmentLines(w.closed, c.options) + Framed(content[..offset], c.options))
  {
    RunIsOneFile(disk, events, i, c);
    TailingIsAccounted(disk, events, c);
    ReadingsEndExactlyByDisturbances(disk, events, c);
    var w := Run(Start(disk), events, c);
    hide Run, Disturbances, Framed, Residue, SegmentLines;
    assert w.closed != [] ==> w.closed[0].inode == w.now.inode;
    assert w.disk.Content(i)[w.now.start..w.current.value.offset] == w.now.fed;
    if w.closed == [] {
      assert SegmentLines([], c.options) == [] by { NoSegments(c.options); }
    }
  }

  lemma NoSegments(o: Options)
    ensures SegmentLines([], o) == []
  {
  }

  // ── When the size check starts an append-only file over ────────────────────

  /** The size check looks at the path, not at the open stream. A file that was only appended to is started over
      from offset 0 exactly when the path has moved to a file shorter than the offset, or when the offset lies
      beyond the end of the file itself. The latter happens only to the first file, opened at its end with a size
      taken from another file, before anything was read of it. */
  lemma ResetExactlyWhenPathMoved(disk: Disk, events: seq<Event>, c: Settings)
    requires var w := Run(Start(disk), events, c);
             w.phase == CheckingSize && w.current.Some? && w.now.appendedOnly
    ensures var w := Run(Start(disk), events, c);
            var after := Step(w, Observe, c);
            var content := w.disk.Content(w.now.inode);
            var moved := w.disk.path.Some? && w.disk.path.value != w.now.inode
                      && |w.disk.Content(w.disk.path.value)| < w.current.value.offset;
            var pastEnd := w.disk.path == Some(w.now.inode) && |content| < w.now.start;
            && (|after.closed| == |w.closed| + 1 <==> moved || pastEnd)
            && (!moved && !pastEnd ==> after.closed == w.closed && after.now == w.now)
            && (|content| < w.now.start ==> w.now.fed == "" && w.closed == [] && c.startAtEnd)
  {
    TailingIsAccounted(disk, events, c);
    hide Run, Framed, Residue, SegmentLines, ClosePending;
  }

  // ── Witnesses ──────────────────────────────────────────────────────────────

  lemma RunOne(w: World, events: seq<Event>, e: Event, c: Settings)
    ensures Run(w, events + [e], c) == Step(Run(w, events, c), e, c)
  {
    assert (events + [e])[..|events|] == events;
  }

  const WITNESS := Settings(Options(1024, true, true), false, 1024)
  const TWO_FILES := Disk(Some(0), map[0 := "a\n", 1 := ""])

  /** File 0 open at offset 0, with what was handed over and read before. */
  function Reads(disk: Disk, lines: seq<string>, closed: seq<Segment>): World {
    World(disk, Reading, false, Some(OpenFile(0, 0, 0, FRESH)), lines, closed, Segment(0, 0, "", true))
  }

  /** The same after reading its one line. */
  function HasRead(disk: Disk, lines: seq<string>, closed: seq<Segment>): World {
    World(disk, CheckingIdentity, false, Some(OpenFile(0, 0, 2, FRESH)), lines + ["a"], closed,
          Segment(0, 0, "a\n", true))
  }

  lemma WitnessRead(disk: Disk, lines: seq<string>, closed: seq<Segment>)
    requires disk.Content(0) == "a\n"
    ensures Step(Reads(disk, lines, closed), Read(2), WITNESS) == HasRead(disk, lines, closed)
  {
    assert "a\n"[..1] == "a" && "a"[..0] == "" && "a\n"[0..2] == "a\n" && "" + "a\n" == "a\n";
    assert Feed(FRESH, "a", WITNESS.options) == Fed(Framer("a", false), []);
    assert Feed(FRESH, "a\n", WITNESS.options) == Fed(FRESH, ["a"]);
  }

  /** Three observations open file 0, and one read takes its line. */
  lemma WitnessOpens(e: seq<Event>, w: World)
    requires Run(Start(TWO_FILES), e, WITNESS) == w && w.phase == Top && w.current == None
    requires w.disk.path == Some(0) && w.disk.Content(0) == "a\n"
    ensures Run(Start(TWO_FILES), e + [Observe] + [Observe] + [Observe] + [Read(2)], WITNESS)
         == HasRead(w.disk, w.processed, w.closed)
  {
    hide Feed, Split, Run;
    RunOne(Start(TWO_FILES), e, Observe, WITNESS);
    RunOne(Start(TWO_FILES), e + [Observe], Observe, WITNESS);
    RunOne(Start(TWO_FILES), e + [Observe] + [Observe], Observe, WITNESS);
    RunOne(Start(TWO_FILES), e + [Observe] + [Observe] + [Observe], Read(2), WITNESS);
    WitnessRead(w.disk, w.processed, w.closed);
  }

  lemma WitnessStarts() returns (e: seq<Event>)
    ensures e == [Observe, Observe, Observe, Read(2)]
    ensures Run(Start(TWO_FILES), e, WITNESS) == HasRead(TWO_FILES, [], [])
  {
    assert Run(Start(TWO_FILES), [], WITNESS) == Start(TWO_FILES);
    hide Run;
    WitnessOpens([], Start(TWO_FILES));
    e := [] + [Observe] + [Observe] + [Observe] + [Read(2)];
  }

  /** Once the grace period is over, the file is opened from its start again. */
  lemma WitnessDrains(e: seq<Event>, w: World)
    requires Run(Start(TWO_FILES), e, WITNESS) == w && w == HasRead(TWO_FILES, [], []).(phase := Draining)
    ensures Run(Start(TWO_FILES), e + [DrainOver] + [Observe] + [Observe] + [Observe] + [Read(2)], WITNESS).processed
         == ["a", "a"]
  {
    hide Feed, Split, Run;
    RunOne(Start(TWO_FILES), e, DrainOver, WITNESS);
    var after := Step(w, DrainOver, WITNESS);
    assert after.processed == ["a"];
    WitnessOpens(e + [DrainOver], after);
  }

  /** One append-only file whose path never moves is ingested twice when one identity check fails. */
  lemma FailedCheckRepeatsALine()
    ensures var events := [Observe, Observe, Observe, Read(2), Fail, DrainOver, Observe, Observe, Observe, Read(2)];
            OnlyGrows(Start(TWO_FILES), events, 0, WITNESS)
            && Run(Start(TWO_FILES), events, WITNESS).processed == ["a", "a"]
  {
    hide Feed, Split, Run, OnlyGrows;
    var e := WitnessStarts();
    RunOne(Start(TWO_FILES), e, Fail, WITNESS);
    WitnessDrains(e + [Fail], HasRead(TWO_FILES, [], []).(phase := Draining));
    var events := [Observe, Observe, Observe, Read(2), Fail, DrainOver, Observe, Observe, Observe, Read(2)];
    assert e + [Fail] + [DrainOver] + [Observe] + [Observe] + [Observe] + [Read(2)] == events;
    CalmRunGrows(Start(TWO_FILES), events, 0, WITNESS);
  }

  lemma {:induction false} CalmRunGrows(w: World, events: seq<Event>, i: Inode, c: Settings)
    requires forall k :: 0 <= k < |events| && events[k].SetPath? ==> events[k].to == None || events[k].to == Some(i)
    requires forall k :: 0 <= k < |events| ==> !events[k].SetContent?
    ensures OnlyGrows(w, events, i, c)
  {
    hide Run;
    if events != [] {
      CalmRunGrows(w, events[..|events| - 1], i, c);
    }
  }

  /** The same when the path vanishes for the moment of one identity check. */
  lemma VanishedPathRepeatsALine()
    ensures var events := [Observe, Observe, Observe, Read(2), SetPath(None), Observe, SetPath(Some(0)),
                           DrainOver, Observe, Observe, Observe, Read(2)];
            OnlyGrows(Start(TWO_FILES), events, 0, WITNESS)
            && Run(Start(TWO_FILES), events, WITNESS).processed == ["a", "a"]
  {
    hide Feed, Split, Run, OnlyGrows;
    var e := WitnessStarts();
    RunOne(Start(TWO_FILES), e, SetPath(None), WITNESS);
    RunOne(Start(TWO_FILES), e + [SetPath(None)], Observe, WITNESS);
    var e' := e + [SetPath(None)] + [Observe];
    RunOne(Start(TWO_FILES), e', SetPath(Some(0)), WITNESS);
    WitnessDrains(e' + [SetPath(Some(0))], HasRead(TWO_FILES, [], []).(phase := Draining));
    var events := [Observe, Observe, Observe, Read(2), SetPath(None), Observe, SetPath(Some(0)),
                   DrainOver, Observe, Observe, Observe, Read(2)];
    assert e' + [SetPath(Some(0))] + [DrainOver] + [Observe] + [Observe] + [Observe] + [Read(2)] == events;
    CalmRunGrows(Start(TWO_FILES), events, 0, WITNESS);
  }

  /** Rotating between the identity check and the size check makes the append-only old file be read twice. */
  lemma RotationBetweenChecksRepeatsALine()
    ensures var events := [Observe, Observe, Observe, Read(2), Observe, SetPath(Some(1)), Observe, Read(2)];
            Run(Start(TWO_FILES), events, WITNESS).processed == ["a", "a"]
  {
    var e := WitnessStarts();
    hide Feed, Split, Run;
    var rotated := TWO_FILES.(path := Some(1));
    RunOne(Start(TWO_FILES), e, Observe, WITNESS);
    RunOne(Start(TWO_FILES), e + [Observe], SetPath(Some(1)), WITNESS);
    RunOne(Start(TWO_FILES), e + [Observe] + [SetPath(Some(1))], Observe, WITNESS);
    var e' := e + [Observe] + [SetPath(Some(1))] + [Observe];
    assert Run(Start(TWO_FILES), e', WITNESS) == Reads(rotated, [] + ["a"], [Segment(0, 0, "a\n", true)]);
    RunOne(Start(TWO_FILES), e', Read(2), WITNESS);
    WitnessRead(rotated, [] + ["a"], [Segment(0, 0, "a\n", true)]);
    assert e' + [Read(2)] == [Observe, Observe, Observe, Read(2), Observe, SetPath(Some(1)), Observe, Read(2)];
  }
}
