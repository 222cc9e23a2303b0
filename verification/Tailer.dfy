/**
 The file tailer around the framer: open, read, rotation, truncation and close, interleaved with a file
 system that other processes change between any two of its calls.
 Every file-system call of the harvester is one step; sleeping, deadlines and failing calls are choices.
 */
module Tailer {
  import opened Results
  import opened Sequences
  import opened Framing

  type Inode = nat

  /** The tailed path names at most one file; a file keeps its content when the path moves away from it. */
  datatype Disk = Disk(path: Option<Inode>, files: map<Inode, string>) {
    function Content(inode: Inode): string {
      if inode in files then files[inode] else ""
    }
  }

  datatype OpenFile = OpenFile(inode: Inode, identity: Inode, offset: nat, framer: Framer)

  /** Where the worker thread stands between two file-system calls. */
  datatype Phase =
    | Top
    | Opening(before: Inode)
    | Opened(before: Inode, inode: Inode)
    | Sizing(identity: Inode, inode: Inode)
    | Reading
    | CheckingIdentity
    | CheckingSize
    | Draining
    | Stopped

  /** One uninterrupted reading of a file: where it began and every byte the framer got since.
      appendedOnly records whether anything but appends has happened to the file since it began. */
  datatype Segment = Segment(inode: Inode, start: nat, fed: string, appendedOnly: bool)

  datatype Settings = Settings(options: Options, startAtEnd: bool, bufferSize: nat)

  /** The worker's variables, the disk, and the history of segments the theorems speak of. */
  datatype World = World(
    disk: Disk,
    phase: Phase,
    firstOpen: bool,
    current: Option<OpenFile>,
    processed: seq<string>,
    closed: seq<Segment>,
    now: Segment)

  datatype Event =
    | SetPath(to: Option<Inode>)                    // another process renames, removes or replaces the path
    | SetContent(inode: Inode, content: string)     // another process appends to, truncates or rewrites a file
    | Observe                                       // the worker's next stat, open or size call
    | Fail                                          // that call fails
    | Read(n: nat)                                  // one stream read returning at most n bytes
    | DrainOver                                     // the grace period ends
    | Stop                                          // stop requested

  const NO_SEGMENT := Segment(0, 0, "", true)

  function Start(disk: Disk): World {
    World(disk, Top, true, None, [], [], NO_SEGMENT)
  }

  function Adopt(w: World, inode: Inode, identity: Inode, offset: nat): World {
    w.(phase := Reading, firstOpen := false,
       current := Some(OpenFile(inode, identity, offset, FRESH)),
       now := Segment(inode, offset, "", true))
  }

  /** Ends the current segment, flushing its partial line. */
  function EndSegment(w: World, o: Options): World
    requires w.current.Some?
  {
    var fed := ClosePending(w.current.value.framer, o);
    w.(processed := w.processed + fed.lines,
       closed := w.closed + [w.now],
       current := Some(w.current.value.(framer := fed.framer)))
  }

  function CloseFile(w: World, phase: Phase, o: Options): World
    requires w.current.Some?
  {
    EndSegment(w, o).(current := None, phase := phase)
  }

  function OnObserve(w: World, c: Settings): World {
    match w.phase
    case Top => if w.disk.path.Some? then w.(phase := Opening(w.disk.path.value)) else w
    case Opening(before) =>
      if w.disk.path.Some? then w.(phase := Opened(before, w.disk.path.value)) else w.(phase := Top)
    case Opened(before, inode) =>
      if w.disk.path != Some(before) then w.(phase := Top)
      else if w.firstOpen && c.startAtEnd then w.(phase := Sizing(before, inode))
      else Adopt(w, inode, before, 0)
    case Sizing(identity, inode) =>
      if w.disk.path.None? then w.(phase := Top)
      else Adopt(w, inode, identity, |w.disk.Content(w.disk.path.value)|)
    case CheckingIdentity =>
      if w.current.None? then w
      else if w.disk.path != Some(w.current.value.identity) then w.(phase := Draining)
      else w.(phase := CheckingSize)
    case CheckingSize =>
      if w.current.None? then w
      else if w.disk.path.Some? && |w.disk.Content(w.disk.path.value)| < w.current.value.offset then
        var ended := EndSegment(w, c.options);
        ended.(phase := Reading,
               current := Some(ended.current.value.(offset := 0)),
               now := Segment(w.now.inode, 0, "", true))
      else w.(phase := Reading)
    case _ => w
  }

  function Min(a: nat, b: nat): nat { if a <= b then a else b }

  /** The bytes one read of at most n returns: whatever the file holds past the offset, up to the buffer. */
  function NextBytes(w: World, n: nat, c: Settings): string
    requires w.current.Some?
  {
    var content, offset := w.disk.Content(w.current.value.inode), w.current.value.offset;
    if |content| <= offset then ""
    else content[offset..offset + Min(Min(n, c.bufferSize), |content| - offset)]
  }

  function Consume(w: World, bytes: string, o: Options): World
    requires w.current.Some?
  {
    var fed := Feed(w.current.value.framer, bytes, o);
    w.(current := Some(w.current.value.(offset := w.current.value.offset + |bytes|, framer := fed.framer)),
       processed := w.processed + fed.lines,
       now := w.now.(fed := w.now.fed + bytes))
  }

  /** A short or empty read ends the read loop; while draining, reading goes on until the grace period ends. */
  function OnRead(w: World, n: nat, c: Settings): World
    requires w.current.Some?
  {
    var bytes := NextBytes(w, n, c);
    Consume(w, bytes, c.options).(
      phase := if w.phase == Reading && (bytes == "" || |bytes| < c.bufferSize) then CheckingIdentity else w.phase)
  }

  function OnSetContent(w: World, inode: Inode, content: string): World {
    var appended := w.disk.Content(inode) <= content;
    w.(disk := w.disk.(files := w.disk.files[inode := content]),
       now := if inode == w.now.inode && !appended then w.now.(appendedOnly := false) else w.now)
  }

  function Step(w: World, e: Event, c: Settings): World {
    match e
    case SetPath(to) => w.(disk := w.disk.(path := to))
    case SetContent(inode, content) => OnSetContent(w, inode, content)
    case Observe => OnObserve(w, c)
    case Fail =>
      if w.phase.Opening? || w.phase.Opened? || w.phase.Sizing? then w.(phase := Top)
      else if w.phase == CheckingIdentity then w.(phase := Draining)
      else if w.phase == CheckingSize then w.(phase := Reading)
      else w
    case Read(n) => if (w.phase == Reading || w.phase == Draining) && w.current.Some? then OnRead(w, n, c) else w
    case DrainOver => if w.phase == Draining && w.current.Some? then CloseFile(w, Top, c.options) else w
    case Stop =>
      if w.current.Some? then CloseFile(w, Stopped, c.options) else w.(phase := Stopped)
  }

  function Run(w: World, events: seq<Event>, c: Settings): World {
    if events == [] then w else Step(Run(w, events[..|events| - 1], c), events[|events| - 1], c)
  }

  // ── Accounting of every run ────────────────────────────────────────────────

  function SegmentLines(segments: seq<Segment>, o: Options): seq<string> {
    if segments == [] then []
    else
      var last := segments[|segments| - 1];
      SegmentLines(segments[..|segments| - 1], o) + Framed(last.fed, o) + Flushed(last.fed, o)
  }

  /** The bytes fed are content[start..], without gap or repeat. */
  predicate Covers(content: string, start: nat, fed: string) {
    fed == "" || (start + |fed| <= |content| && content[start..start + |fed|] == fed)
  }

  /** Everything handed to processing, segment by segment. */
  predicate LinesAccounted(w: World, o: Options) {
    w.processed == SegmentLines(w.closed, o) + (if w.current.Some? then Framed(w.now.fed, o) else [])
  }

  /** The open file: its framer state, its offset, and the bytes it was fed. */
  predicate OpenAccounted(w: World, o: Options) {
    && (w.current.Some? <==>
          w.phase.Reading? || w.phase.CheckingIdentity? || w.phase.CheckingSize? || w.phase.Draining?)
    && (w.current.Some? ==>
          && w.current.value.inode == w.now.inode
          && w.current.value.framer == Residue(w.now.fed, o)
          && w.current.value.offset == w.now.start + |w.now.fed|
          && (w.now.appendedOnly ==> Covers(w.disk.Content(w.now.inode), w.now.start, w.now.fed)))
  }

  /** Only the first segment may start anywhere but at offset 0, and only when configured to. */
  ghost predicate StartsAccounted(w: World, c: Settings) {
    && (w.firstOpen ==> w.closed == [] && w.current.None?)
    && (w.phase.Sizing? ==> w.firstOpen && c.startAtEnd)
    && (forall k :: 0 <= k < |w.closed| && (k > 0 || !c.startAtEnd) ==> w.closed[k].start == 0)
    && (w.current.Some? && (w.closed != [] || !c.startAtEnd) ==> w.now.start == 0)
  }

  ghost predicate Accounted(w: World, c: Settings) {
    LinesAccounted(w, c.options) && OpenAccounted(w, c.options) && StartsAccounted(w, c)
  }

  /** In every run a file is opened only by looking at the path, and read from its start; but the first one, where
      tailing begins at the end, from the size the path had at the last of those looks. A file not opened at its end
      is under the path at that moment, as it was before it was opened. */
  lemma OpeningStartsWhereAsked(disk: Disk, events: seq<Event>, e: Event, c: Settings)
    requires var w := Run(Start(disk), events, c); w.current.None? && Step(w, e, c).current.Some?
    ensures var w := Run(Start(disk), events, c); var after := Step(w, e, c);
            var atEnd := w.firstOpen && c.startAtEnd;
            && e == Observe && w.disk.path.Some? && after.phase == Reading
            && after.now.start == after.current.value.offset
            && after.now.start == (if atEnd then |w.disk.Content(w.disk.path.value)| else 0)
            && after.now.fed == "" && after.current.value.framer == FRESH
            && (!atEnd ==> w.disk.path == Some(after.current.value.identity))
  {
    TailingIsAccounted(disk, events, c);
    hide Run, LinesAccounted, Feed;
  }

  /** And the first opening waits for that look exactly where tailing begins at the end. */
  lemma SizeIsAskedExactlyAtEnd(w: World, c: Settings)
    requires w.phase.Opened? && w.disk.path == Some(w.phase.before)
    ensures Step(w, Observe, c).phase.Sizing? <==> w.firstOpen && c.startAtEnd
    ensures Step(w, Observe, c).current.Some? || w.current.Some? || Step(w, Observe, c).phase.Sizing?
  {
  }

  lemma SegmentLinesSnoc(segments: seq<Segment>, last: Segment, o: Options)
    ensures SegmentLines(segments + [last], o) == SegmentLines(segments, o) + Framed(last.fed, o) + Flushed(last.fed, o)
  {
    assert (segments + [last])[..|segments|] == segments;
  }

  lemma EndSegmentAccounted(w: World, o: Options)
    requires LinesAccounted(w, o) && OpenAccounted(w, o) && w.current.Some?
    ensures var e := EndSegment(w, o);
            e.processed == SegmentLines(e.closed, o) && e.current.value.framer == FRESH
  {
    SegmentLinesSnoc(w.closed, w.now, o);
  }

  lemma CoversMore(content: string, start: nat, fed: string, k: nat)
    requires Covers(content, start, fed) && start + |fed| + k <= |content|
    ensures Covers(content, start, fed + content[start + |fed|..start + |fed| + k])
  {
    if fed == "" {
      assert fed + content[start..start + k] == content[start..start + k];
    } else {
      var mid := start + |fed|;
      assert content[start..mid + k] == content[start..mid] + content[mid..mid + k];
    }
  }

  lemma ConsumeAccounted(w: World, bytes: string, o: Options)
    requires w.current.Some? && LinesAccounted(w, o) && OpenAccounted(w, o)
    ensures var r := Consume(w, bytes, o);
            LinesAccounted(r, o) && r.current.value.framer == Residue(r.now.fed, o)
  {
    FeedOnSpec(w.now.fed, bytes, o);
    hide Feed, Framed, Residue, SegmentLines;
  }

  lemma ReadAccounted(w: World, n: nat, c: Settings)
    requires w.current.Some? && (w.phase == Reading || w.phase == Draining)
    requires LinesAccounted(w, c.options) && OpenAccounted(w, c.options)
    ensures LinesAccounted(OnRead(w, n, c), c.options) && OpenAccounted(OnRead(w, n, c), c.options)
  {
    var bytes := NextBytes(w, n, c);
    hide Feed, Framed, Residue, SegmentLines;
    ConsumeAccounted(w, bytes, c.options);
    if w.now.appendedOnly {
      ReadCovers(w, n, c);
    }
    hide NextBytes, Covers;
  }

  lemma ReadCovers(w: World, n: nat, c: Settings)
    requires w.current.Some? && OpenAccounted(w, c.options) && w.now.appendedOnly
    ensures Covers(w.disk.Content(w.now.inode), w.now.start, w.now.fed + NextBytes(w, n, c))
  {
    hide Residue;
    var bytes := NextBytes(w, n, c);
    if bytes == "" {
      assert w.now.fed + bytes == w.now.fed;
    } else {
      CoversMore(w.disk.Content(w.now.inode), w.now.start, w.now.fed, |bytes|);
    }
  }

  lemma ObserveAccounted(w: World, c: Settings)
    requires LinesAccounted(w, c.options) && OpenAccounted(w, c.options)
    ensures LinesAccounted(OnObserve(w, c), c.options) && OpenAccounted(OnObserve(w, c), c.options)
  {
    EmptyStream(c.options);
    hide SegmentLines, Framed, Residue, Flushed, Feed, KeptOf, Split;
    if w.current.Some? {
      EndSegmentAccounted(w, c.options);
    }
  }

  lemma EmptyStream(o: Options)
    ensures Framed("", o) == [] && Residue("", o) == FRESH
  {
  }

  lemma SetContentAccounted(w: World, inode: Inode, content: string, c: Settings)
    requires LinesAccounted(w, c.options) && OpenAccounted(w, c.options)
    ensures var r := OnSetContent(w, inode, content);
            LinesAccounted(r, c.options) && OpenAccounted(r, c.options)
  {
  }

  lemma OpenStepAccounted(w: World, e: Event, c: Settings)
    requires LinesAccounted(w, c.options) && OpenAccounted(w, c.options)
    ensures LinesAccounted(Step(w, e, c), c.options) && OpenAccounted(Step(w, e, c), c.options)
  {
    hide SegmentLines, Framed, Residue, Flushed, Feed, KeptOf, Split;
    match e
    case SetContent(inode, content) => SetContentAccounted(w, inode, content, c);
    case Observe => ObserveAccounted(w, c);
    case Read(n) =>
      if (w.phase == Reading || w.phase == Draining) && w.current.Some? {
        ReadAccounted(w, n, c);
      }
    case _ =>
      if w.current.Some? {
        EndSegmentAccounted(w, c.options);
      }
  }

  lemma StartsStepAccounted(w: World, e: Event, c: Settings)
    requires OpenAccounted(w, c.options) && StartsAccounted(w, c)
    ensures StartsAccounted(Step(w, e, c), c)
  {
    hide SegmentLines, Framed, Residue, Flushed, Feed, KeptOf, Split, Covers;
    var after := Step(w, e, c);
    assert w.current.Some? ==> after.closed == w.closed || after.closed == w.closed + [w.now];
  }

  lemma StepAccounted(w: World, e: Event, c: Settings)
    requires Accounted(w, c)
    ensures Accounted(Step(w, e, c), c)
  {
    OpenStepAccounted(w, e, c);
    StartsStepAccounted(w, e, c);
    hide Step, LinesAccounted, OpenAccounted, StartsAccounted;
  }

  /** Over every interleaving with the file system, from any disk: the lines handed to processing are, file by
      file, the one-shot framing of the bytes read plus the flushed partial line; those bytes are exactly
      content[start..offset] while the file is only appended to; and only the first opened file may start
      anywhere but at offset 0. */
  lemma {:induction false} TailingIsAccounted(disk: Disk, events: seq<Event>, c: Settings)
    ensures Accounted(Run(Start(disk), events, c), c)
  {
    if events != [] {
      TailingIsAccounted(disk, events[..|events| - 1], c);
      StepAccounted(Run(Start(disk), events[..|events| - 1], c), events[|events| - 1], c);
    }
  }
}
