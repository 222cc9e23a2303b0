/**
 Line framing: the incremental framer of the file harvester, the buffer-splitting framer of the
 socket harvester, and the one-shot specification both are measured against.
 A byte is a char below 256; nothing here depends on which bytes there are besides '\n' and '\r'.
 */
module Framing {
  import opened Sequences

  const LF: char := '\n'
  const CR: char := '\r'

  datatype Options = Options(maxLineBytes: nat, ignoreEmptyLines: bool, flushPartialLineOnClose: bool)

  // ── One-shot specification ─────────────────────────────────────────────────

  /** The newline-terminated raw lines of a stream. */
  function Complete(s: string): seq<string> {
    var p := Split(s, LF);
    p[..|p| - 1]
  }

  /** The unterminated rest of a stream. */
  function Unterminated(s: string): string {
    var p := Split(s, LF);
    p[|p| - 1]
  }

  function StripCr(line: string): string {
    if line != "" && line[|line| - 1] == CR then line[..|line| - 1] else line
  }

  /** What one raw line contributes: nothing when overlong, nothing when blank and blanks are ignored. */
  function Kept(raw: string, o: Options): seq<string> {
    if |raw| > o.maxLineBytes then []
    else if StripCr(raw) == "" && o.ignoreEmptyLines then []
    else [StripCr(raw)]
  }

  function KeptOf(raws: seq<string>, o: Options): seq<string> {
    if raws == [] then [] else KeptOf(raws[..|raws| - 1], o) + Kept(raws[|raws| - 1], o)
  }

  /** The lines a whole stream yields. */
  function Framed(s: string, o: Options): seq<string> {
    KeptOf(Complete(s), o)
  }

  /** The framer state a stream must leave behind. */
  function Residue(s: string, o: Options): Framer {
    var tail := Unterminated(s);
    if |tail| > o.maxLineBytes then Framer("", true) else Framer(tail, false)
  }

  /** What closing a file after stream s adds: its partial line, unless it is empty, overlong or unwanted. */
  function Flushed(s: string, o: Options): seq<string> {
    var tail := Unterminated(s);
    if |tail| > o.maxLineBytes || tail == "" || !o.flushPartialLineOnClose then [] else [tail]
  }

  // ── Incremental framer ─────────────────────────────────────────────────────

  datatype Framer = Framer(pending: string, dropping: bool)
  datatype Fed = Fed(framer: Framer, lines: seq<string>)

  const FRESH := Framer("", false)

  function FinishLine(f: Framer, o: Options): Fed {
    if f.dropping then Fed(FRESH, [])
    else
      var line := StripCr(f.pending);
      Fed(FRESH, if line != "" || !o.ignoreEmptyLines then [line] else [])
  }

  function FeedByte(f: Framer, ch: char, o: Options): Fed {
    if ch == LF then FinishLine(f, o)
    else if f.dropping then Fed(f, [])
    else if |f.pending| >= o.maxLineBytes then Fed(Framer("", true), [])
    else Fed(Framer(f.pending + [ch], false), [])
  }

  function Feed(f: Framer, bytes: string, o: Options): Fed {
    if bytes == "" then Fed(f, [])
    else
      var before := Feed(f, bytes[..|bytes| - 1], o);
      var after := FeedByte(before.framer, bytes[|bytes| - 1], o);
      Fed(after.framer, before.lines + after.lines)
  }

  function FeedChunks(f: Framer, chunks: seq<string>, o: Options): Fed {
    if chunks == [] then Fed(f, [])
    else
      var before := FeedChunks(f, chunks[..|chunks| - 1], o);
      var after := Feed(before.framer, chunks[|chunks| - 1], o);
      Fed(after.framer, before.lines + after.lines)
  }

  function ClosePending(f: Framer, o: Options): Fed {
    Fed(FRESH, if f.dropping || f.pending == "" || !o.flushPartialLineOnClose then [] else [f.pending])
  }

  // ── Refinement ─────────────────────────────────────────────────────────────

  lemma CompleteSnoc(s: string, c: char)
    ensures Complete(s + [c]) == if c == LF then Complete(s) + [Unterminated(s)] else Complete(s)
    ensures Unterminated(s + [c]) == if c == LF then "" else Unterminated(s) + [c]
  {
    SplitSnoc(s, c, LF);
    var p := Split(s, LF);
    assert p == p[..|p| - 1] + [p[|p| - 1]];
  }

  lemma KeptOfSnoc(raws: seq<string>, raw: string, o: Options)
    ensures KeptOf(raws + [raw], o) == KeptOf(raws, o) + Kept(raw, o)
  {
    assert (raws + [raw])[..|raws|] == raws;
  }

  /** One byte keeps the incremental framer on the specification. */
  lemma FeedByteOnSpec(s: string, c: char, o: Options)
    ensures var fed := FeedByte(Residue(s, o), c, o);
            fed.framer == Residue(s + [c], o) && Framed(s + [c], o) == Framed(s, o) + fed.lines
  {
    CompleteSnoc(s, c);
    if c == LF {
      KeptOfSnoc(Complete(s), Unterminated(s), o);
    }
  }

  /** The framer fed any stream at once is the one-shot specification, lines and leftover state alike. */
  lemma {:induction false} FeedIsOneShot(s: string, o: Options)
    ensures Feed(FRESH, s, o) == Fed(Residue(s, o), Framed(s, o))
  {
    if s != "" {
      var k := |s| - 1;
      assert s == s[..k] + [s[k]];
      FeedIsOneShot(s[..k], o);
      FeedByteOnSpec(s[..k], s[k], o);
    }
  }

  lemma {:induction false} FeedAppend(f: Framer, a: string, b: string, o: Options)
    ensures var first := Feed(f, a, o); var second := Feed(first.framer, b, o);
            Feed(f, a + b, o) == Fed(second.framer, first.lines + second.lines)
  {
    if b == "" {
      assert a + b == a;
    } else {
      var k := |b| - 1;
      assert (a + b)[..|a + b| - 1] == a + b[..k];
      FeedAppend(f, a, b[..k], o);
    }
  }

  /** The framer stays on the specification whatever it is fed next. */
  lemma FeedOnSpec(s: string, bytes: string, o: Options)
    ensures var fed := Feed(Residue(s, o), bytes, o);
            fed.framer == Residue(s + bytes, o) && Framed(s + bytes, o) == Framed(s, o) + fed.lines
  {
    FeedIsOneShot(s, o);
    FeedIsOneShot(s + bytes, o);
    FeedAppend(FRESH, s, bytes, o);
  }

  lemma {:induction false} FeedChunksIsFeed(f: Framer, chunks: seq<string>, o: Options)
    ensures FeedChunks(f, chunks, o) == Feed(f, Flatten(chunks), o)
  {
    if chunks != [] {
      var k := |chunks| - 1;
      FeedChunksIsFeed(f, chunks[..k], o);
      FeedAppend(f, Flatten(chunks[..k]), chunks[k], o);
    }
  }

  /** Chunk independence: however a stream is cut into reads, the harvester sees the one-shot lines and is
      left in the state of the unterminated tail, with a bounded buffer that is empty while dropping. */
  lemma FramingIsChunkIndependent(chunks: seq<string>, o: Options)
    ensures var s := Flatten(chunks); var fed := FeedChunks(FRESH, chunks, o);
            && fed.lines == Framed(s, o)
            && fed.framer == Residue(s, o)
            && |fed.framer.pending| <= o.maxLineBytes
            && (fed.framer.dropping <==> |Unterminated(s)| > o.maxLineBytes)
            && (fed.framer.dropping ==> fed.framer.pending == "")
            && ClosePending(fed.framer, o).lines == Flushed(s, o)
  {
    FeedChunksIsFeed(FRESH, chunks, o);
    FeedIsOneShot(Flatten(chunks), o);
  }

  // ── Single lines ───────────────────────────────────────────────────────────

  /** A line as it is handed over; an empty one may be unwanted. */
  function HandedOver(line: string, o: Options): seq<string> {
    if line == "" && o.ignoreEmptyLines then [] else [line]
  }

  predicate EndsInCr(line: string) { line != "" && line[|line| - 1] == CR }

  lemma OneLineIsFed(raw: string, o: Options)
    requires LF !in raw
    ensures Feed(FRESH, raw + [LF], o) == Fed(FRESH, Kept(raw, o))
  {
    FeedIsOneShot(raw + [LF], o);
    assert raw + [LF] + "" == raw + [LF];
    CutOneLine(raw, "");
    assert Complete("") == [] && Unterminated("") == "";
    KeptOfSnoc([], raw, o);
    assert [raw] + [] == [raw] && [] + [raw] == [raw] && KeptOf([], o) == [];
    hide Feed, Complete, Unterminated, Kept;
  }

  /** A line fed with its newline is handed over as it is, without one CR at its end if it has one; a line above the
      limit, which counts that CR, is not. */
  lemma LineIsHandedOver(raw: string, o: Options)
    requires LF !in raw
    ensures Feed(FRESH, raw + [LF], o) == Fed(FRESH,
              if |raw| > o.maxLineBytes then []
              else HandedOver(if EndsInCr(raw) then raw[..|raw| - 1] else raw, o))
  {
    OneLineIsFed(raw, o);
    hide Feed;
  }

  /** So a line below the limit comes out whole with either line end. */
  lemma CrlfLineIsHandedOver(line: string, o: Options)
    requires LF !in line && |line| < o.maxLineBytes
    ensures Feed(FRESH, line + [CR, LF], o) == Fed(FRESH, HandedOver(line, o))
    ensures !EndsInCr(line) ==> Feed(FRESH, line + [LF], o) == Fed(FRESH, HandedOver(line, o))
  {
    assert line + [CR, LF] == line + [CR] + [LF];
    LineIsHandedOver(line + [CR], o);
    LineIsHandedOver(line, o);
    assert (line + [CR])[..|line|] == line;
    hide Feed;
  }

  function Terminated(lines: seq<string>, eol: string): string {
    if lines == [] then "" else Terminated(lines[..|lines| - 1], eol) + lines[|lines| - 1] + eol
  }

  function AllHandedOver(lines: seq<string>, o: Options): seq<string> {
    if lines == [] then [] else AllHandedOver(lines[..|lines| - 1], o) + HandedOver(lines[|lines| - 1], o)
  }

  /** A stream of short lines that do not end in CR frames alike with either line end: to those lines, in order. */
  lemma {:induction false} CrlfFramesAsLf(lines: seq<string>, o: Options)
    requires forall k :: 0 <= k < |lines| ==>
               LF !in lines[k] && |lines[k]| < o.maxLineBytes && !EndsInCr(lines[k])
    ensures Feed(FRESH, Terminated(lines, [CR, LF]), o) == Fed(FRESH, AllHandedOver(lines, o))
    ensures Feed(FRESH, Terminated(lines, [LF]), o) == Fed(FRESH, AllHandedOver(lines, o))
  {
    if lines == [] {
      NothingFed(FRESH, o);
    } else {
      hide Feed, HandedOver, EndsInCr, Terminated;
      var k := |lines| - 1;
      CrlfFramesAsLf(lines[..k], o);
      CrlfLineIsHandedOver(lines[k], o);
      OneMoreLine(lines, [CR, LF], o);
      OneMoreLine(lines, [LF], o);
    }
  }

  lemma OneMoreLine(lines: seq<string>, eol: string, o: Options)
    requires lines != []
    requires var k := |lines| - 1;
             && Feed(FRESH, Terminated(lines[..k], eol), o) == Fed(FRESH, AllHandedOver(lines[..k], o))
             && Feed(FRESH, lines[k] + eol, o) == Fed(FRESH, HandedOver(lines[k], o))
    ensures Feed(FRESH, Terminated(lines, eol), o) == Fed(FRESH, AllHandedOver(lines, o))
  {
    hide Feed, HandedOver;
    var k := |lines| - 1;
    FeedAppend(FRESH, Terminated(lines[..k], eol), lines[k] + eol, o);
    assert Terminated(lines, eol) == Terminated(lines[..k], eol) + (lines[k] + eol);
  }

  /** What closing hands over of a line without its newline: all of it, CR included, if that is wanted. */
  lemma PartialLineIsFlushed(part: string, o: Options)
    requires LF !in part
    ensures Feed(FRESH, part, o).lines == []
    ensures ClosePending(Feed(FRESH, part, o).framer, o) == Fed(FRESH,
              if part != "" && |part| <= o.maxLineBytes && o.flushPartialLineOnClose then [part] else [])
  {
    FeedIsOneShot(part, o);
    SplitAtom(part, LF);
    hide Feed;
  }

  // ── The harvester's code ───────────────────────────────────────────────────

  /** Where a polling pass that has taken i chunks stops: after the first chunk that does not fill the buffer. */
  function PassEnd(chunks: seq<string>, bufferSize: nat, i: nat): (end: nat)
    requires i <= |chunks|
    ensures i <= end <= |chunks|
    decreases |chunks| - i
  {
    if i == |chunks| then i
    else if chunks[i] == "" || |chunks[i]| < bufferSize then i + 1
    else PassEnd(chunks, bufferSize, i + 1)
  }

  /** All chunks but the last one taken fill the buffer, and the pass ends early only on one that does not. */
  lemma {:induction false} PassEndsAtFirstShort(chunks: seq<string>, bufferSize: nat, i: nat)
    requires i <= |chunks|
    ensures var end := PassEnd(chunks, bufferSize, i);
            && (i < |chunks| ==> i < end)
            && (forall j :: i <= j < end - 1 ==> chunks[j] != "" && |chunks[j]| >= bufferSize)
            && (i < end < |chunks| ==> chunks[end - 1] == "" || |chunks[end - 1]| < bufferSize)
    decreases |chunks| - i
  {
    if i < |chunks| && chunks[i] != "" && |chunks[i]| >= bufferSize {
      PassEndsAtFirstShort(chunks, bufferSize, i + 1);
    }
  }

  lemma ChunksMore(f: Framer, chunks: seq<string>, i: nat, o: Options)
    requires i < |chunks|
    ensures Flatten(chunks[..i + 1]) == Flatten(chunks[..i]) + chunks[i]
    ensures var before := FeedChunks(f, chunks[..i], o); var more := Feed(before.framer, chunks[i], o);
            FeedChunks(f, chunks[..i + 1], o) == Fed(more.framer, before.lines + more.lines)
  {
    hide Feed;
    assert chunks[..i + 1][..i] == chunks[..i];
  }

  lemma PassStep(chunks: seq<string>, bufferSize: nat, i: nat)
    requires i < |chunks|
    ensures PassEnd(chunks, bufferSize, i)
         == if chunks[i] == "" || |chunks[i]| < bufferSize then i + 1 else PassEnd(chunks, bufferSize, i + 1)
  {
  }

  lemma PassDone(chunks: seq<string>, bufferSize: nat)
    ensures PassEnd(chunks, bufferSize, |chunks|) == |chunks|
  {
  }

  lemma NothingFed(f: Framer, o: Options)
    ensures Flatten<char>([]) == [] && FeedChunks(f, [], o) == Fed(f, []) && Feed(f, "", o) == Fed(f, [])
  {
  }

  /** The offset and framing fields of the file the harvester has open, and the lines it has handed to processing. */
  class FileHarvester {
    const options: Options
    var offset: nat
    var pendingLine: string
    var droppingOverlongLine: bool
    var processed: seq<string>

    constructor (options: Options)
      ensures this.options == options && State() == FRESH && offset == 0 && processed == []
    {
      this.options := options;
      offset := 0;
      pendingLine, droppingOverlongLine, processed := "", false, [];
    }

    function State(): Framer
      reads this
    {
      Framer(pendingLine, droppingOverlongLine)
    }

    method ProcessFinishedLine()
      modifies this`pendingLine, this`droppingOverlongLine, this`processed
      ensures var fed := FinishLine(old(State()), options);
              State() == fed.framer && processed == old(processed) + fed.lines
      ensures var line := old(pendingLine);
              processed == old(processed) + if old(droppingOverlongLine) then []
                           else HandedOver(if EndsInCr(line) then line[..|line| - 1] else line, options)
    {
      if droppingOverlongLine {
        pendingLine := "";
        droppingOverlongLine := false;
        return;
      }
      if pendingLine != "" && pendingLine[|pendingLine| - 1] == CR {
        pendingLine := pendingLine[..|pendingLine| - 1];
      }
      if pendingLine != "" || !options.ignoreEmptyLines {
        processed := processed + [pendingLine];
      }
      pendingLine := "";
    }

    method ConsumeBytes(bytes: string)
      modifies this`pendingLine, this`droppingOverlongLine, this`processed
      ensures var fed := Feed(old(State()), bytes, options);
              State() == fed.framer && processed == old(processed) + fed.lines
    {
      var i := 0;
      while i < |bytes|
        invariant 0 <= i <= |bytes|
        invariant var fed := Feed(old(State()), bytes[..i], options);
                  State() == fed.framer && processed == old(processed) + fed.lines
      {
        var ch := bytes[i];
        assert bytes[..i + 1][..i] == bytes[..i];
        i := i + 1;
        if ch == LF {
          ProcessFinishedLine();
          continue;
        }
        if droppingOverlongLine {
          continue;
        }
        if |pendingLine| >= options.maxLineBytes {
          pendingLine := "";
          droppingOverlongLine := true;
          continue;
        }
        pendingLine := pendingLine + [ch];
      }
      assert bytes[..i] == bytes;
    }

    /** One polling pass over a stream whose successive reads return the given chunks. */
    method ReadAvailable(chunks: seq<string>, bufferSize: nat) returns (totalRead: nat)
      modifies this
      ensures var taken := chunks[..PassEnd(chunks, bufferSize, 0)];
              var fed := FeedChunks(old(State()), taken, options);
              && State() == fed.framer && processed == old(processed) + fed.lines
              && totalRead == |Flatten(taken)| && offset == old(offset) + totalRead
    {
      totalRead := 0;
      var i := 0;
      hide Feed, FeedChunks, Flatten, PassEnd;
      NothingFed(State(), options);
      assert processed + [] == processed;
      while i < |chunks|
        invariant 0 <= i <= |chunks|
        invariant PassEnd(chunks, bufferSize, i) == PassEnd(chunks, bufferSize, 0)
        invariant offset == old(offset) + totalRead && totalRead == |Flatten(chunks[..i])|
        invariant var fed := FeedChunks(old(State()), chunks[..i], options);
                  State() == fed.framer && processed == old(processed) + fed.lines
      {
        ChunksMore(old(State()), chunks, i, options);
        PassStep(chunks, bufferSize, i);
        ghost var before := FeedChunks(old(State()), chunks[..i], options).lines;
        ghost var more := Feed(State(), chunks[i], options).lines;
        assert old(processed) + before + more == old(processed) + (before + more);
        totalRead := totalRead + |chunks[i]|;
        offset := offset + |chunks[i]|;
        ConsumeBytes(chunks[i]);
        i := i + 1;
        if chunks[i - 1] == "" || |chunks[i - 1]| < bufferSize {
          return;
        }
      }
      PassDone(chunks, bufferSize);
    }

    method FlushOrDropPendingLine()
      modifies this`pendingLine, this`droppingOverlongLine, this`processed
      ensures var fed := ClosePending(old(State()), options);
              State() == fed.framer && processed == old(processed) + fed.lines
    {
      if droppingOverlongLine {
        pendingLine := "";
        droppingOverlongLine := false;
        return;
      }
      if pendingLine == "" {
        return;
      }
      if options.flushPartialLineOnClose {
        processed := processed + [pendingLine];
      }
      pendingLine := "";
    }
  }

  // ── Socket harvester ───────────────────────────────────────────────────────

  function NonEmpty(raws: seq<string>): seq<string> {
    if raws == [] then []
    else NonEmpty(raws[..|raws| - 1]) + (if raws[|raws| - 1] == "" then [] else [raws[|raws| - 1]])
  }

  lemma {:induction false} NonEmptyAppend(a: seq<string>, b: seq<string>)
    ensures NonEmpty(a + b) == NonEmpty(a) + NonEmpty(b)
  {
    if b == [] {
      assert a + b == a;
    } else {
      assert (a + b)[..|a + b| - 1] == a + b[..|b| - 1];
      NonEmptyAppend(a, b[..|b| - 1]);
    }
  }

  lemma {:induction false} NonEmptyAreTheOthers(raws: seq<string>, line: string)
    ensures line in NonEmpty(raws) <==> line in raws && line != ""
    ensures NonEmpty([line]) == if line == "" then [] else [line]
  {
    assert [line][..0] == [];
    if raws != [] {
      NonEmptyAreTheOthers(raws[..|raws| - 1], line);
      assert raws == raws[..|raws| - 1] + [raws[|raws| - 1]];
    }
  }

  /** The position of the first newline, or the length when there is none. */
  method FindNewline(buffer: string) returns (at: nat)
    ensures at <= |buffer| && LF !in buffer[..at]
    ensures at < |buffer| ==> buffer[at] == LF
  {
    at := 0;
    while at < |buffer| && buffer[at] != LF
      invariant at <= |buffer| && LF !in buffer[..at]
    {
      at := at + 1;
    }
  }

  lemma UnterminatedIsOnePiece(s: string)
    ensures var u := Unterminated(s); Complete(u) == [] && Unterminated(u) == u
  {
    SplitPiecesHoldNoSeparator(s, LF);
    assert Unterminated(s) in Split(s, LF);
    SplitAtom(Unterminated(s), LF);
  }

  /** Only the unterminated rest of what came before matters for what comes next. */
  lemma {:induction false} SplitAppendTail(s: string, d: string)
    ensures var u := Unterminated(s);
            Complete(s + d) == Complete(s) + Complete(u + d) && Unterminated(s + d) == Unterminated(u + d)
    decreases |d|
  {
    var u := Unterminated(s);
    UnterminatedIsOnePiece(s);
    hide Complete, Unterminated;
    if d == "" {
      assert s + d == s && u + d == u;
    } else {
      var k := |d| - 1;
      assert s + d == (s + d[..k]) + [d[k]] && u + d == (u + d[..k]) + [d[k]];
      SplitAppendTail(s, d[..k]);
      CompleteSnoc(s + d[..k], d[k]);
      CompleteSnoc(u + d[..k], d[k]);
    }
  }

  lemma CutOneLine(line: string, rest: string)
    requires LF !in line
    ensures Complete(line + [LF] + rest) == [line] + Complete(rest)
    ensures Unterminated(line + [LF] + rest) == Unterminated(rest)
  {
    SplitHead(line, rest, LF);
  }

  /** Cuts the buffer at every newline it holds. */
  method CutLines(received: string) returns (lines: seq<string>, buffer: string)
    ensures lines == NonEmpty(Complete(received))
    ensures buffer == Unterminated(received)
  {
    lines, buffer := [], received;
    ghost var done: seq<string> := [];
    var at := FindNewline(buffer);
    while at < |buffer|
      invariant 0 <= at <= |buffer| && LF !in buffer[..at] && (at < |buffer| ==> buffer[at] == LF)
      invariant Complete(received) == done + Complete(buffer)
      invariant Unterminated(received) == Unterminated(buffer)
      invariant lines == NonEmpty(done)
      decreases |buffer|
    {
      var line, rest := buffer[..at], buffer[at + 1..];
      assert buffer == line + [LF] + rest;
      CutOneLine(line, rest);
      assert (done + [line])[..|done|] == done;
      done := done + [line];
      if line != "" {
        lines := lines + [line];
      }
      buffer := rest;
      at := FindNewline(buffer);
    }
    assert buffer[..at] == buffer;
    SplitAtom(buffer, LF);
    assert done + Complete(buffer) == done;
  }

  /** One connection: every received chunk is appended to the buffer, which is then cut at each newline. */
  method HandleClient(chunks: seq<string>) returns (ingested: seq<string>, buffer: string)
    ensures ingested == NonEmpty(Complete(Flatten(chunks)))
    ensures buffer == Unterminated(Flatten(chunks))
  {
    ingested, buffer := [], "";
    var i := 0;
    while i < |chunks|
      invariant 0 <= i <= |chunks|
      invariant ingested == NonEmpty(Complete(Flatten(chunks[..i])))
      invariant buffer == Unterminated(Flatten(chunks[..i]))
    {
      ghost var before := Flatten(chunks[..i]);
      assert chunks[..i + 1][..i] == chunks[..i];
      SplitAppendTail(before, chunks[i]);
      NonEmptyAppend(Complete(before), Complete(buffer + chunks[i]));
      var lines;
      lines, buffer := CutLines(buffer + chunks[i]);
      ingested := ingested + lines;
      i := i + 1;
    }
    assert chunks[..i] == chunks;
  }

  /** A complete line that the file framer and the socket loop treat alike: an empty one if the file framer ignores
      those, and otherwise one that is short enough and does not end in CR. */
  predicate SameForBoth(raw: string, o: Options) {
    if raw == "" then o.ignoreEmptyLines else |raw| <= o.maxLineBytes && raw[|raw| - 1] != CR
  }

  /** No line comes out of the file framer empty. */
  predicate NoneBlank(raws: seq<string>, o: Options) {
    forall k :: 0 <= k < |raws| ==> Kept(raws[k], o) != [""]
  }

  lemma {:induction false} FileKeepsNoMore(raws: seq<string>, o: Options)
    requires NoneBlank(raws, o)
    ensures |KeptOf(raws, o)| <= |NonEmpty(raws)|
  {
    if raws != [] {
      FileKeepsNoMore(raws[..|raws| - 1], o);
      assert Kept(raws[|raws| - 1], o) != [""];
    }
  }

  lemma {:induction false} BlankIsKept(raws: seq<string>, o: Options, k: nat)
    requires k < |raws| && Kept(raws[k], o) == [""]
    ensures "" in KeptOf(raws, o)
  {
    if k < |raws| - 1 {
      BlankIsKept(raws[..|raws| - 1], o, k);
    }
  }

  lemma {:induction false} SocketNeverBlank(raws: seq<string>)
    ensures "" !in NonEmpty(raws)
  {
    if raws != [] {
      SocketNeverBlank(raws[..|raws| - 1]);
    }
  }

  /** With either setting for empty lines, the file framer keeps exactly the non-empty lines if and only if it
      treats every one as the socket loop does. */
  lemma RawLinesAgree(raws: seq<string>, o: Options)
    ensures KeptOf(raws, o) == NonEmpty(raws) <==> forall r :: r in raws ==> SameForBoth(r, o)
  {
    if NoneBlank(raws, o) {
      NonBlankLinesAgree(raws, o);
    } else {
      var k :| 0 <= k < |raws| && Kept(raws[k], o) == [""];
      BlankIsKept(raws, o, k);
      SocketNeverBlank(raws);
      assert raws[k] in raws && !SameForBoth(raws[k], o);
    }
  }

  lemma {:induction false} NonBlankLinesAgree(raws: seq<string>, o: Options)
    requires NoneBlank(raws, o)
    ensures KeptOf(raws, o) == NonEmpty(raws) <==> forall r :: r in raws ==> SameForBoth(r, o)
  {
    if raws != [] {
      var k := |raws| - 1;
      var init, last := raws[..k], raws[k];
      NonBlankLinesAgree(init, o);
      FileKeepsNoMore(init, o);
      assert raws == init + [last] && Kept(last, o) != [""];
      assert forall r :: r in raws <==> r in init || r == last;
      var added := if last == "" then [] else [last];
      assert KeptOf(raws, o) == KeptOf(init, o) + Kept(last, o) && NonEmpty(raws) == NonEmpty(init) + added;
      assert Kept(last, o) == added <==> SameForBoth(last, o);
      hide KeptOf, NonEmpty, Kept, SameForBoth, NoneBlank;
      if KeptOf(raws, o) == NonEmpty(raws) {
        SameTails(KeptOf(init, o), Kept(last, o), NonEmpty(init), added);
      }
    }
  }

  lemma SameTails(a: seq<string>, x: seq<string>, b: seq<string>, y: seq<string>)
    requires a + x == b + y && |a| <= |b| && |x| <= |y|
    ensures a == b && x == y
  {
    assert a == (a + x)[..|a|] && x == (a + x)[|a|..];
    assert b == (b + y)[..|b|] && y == (b + y)[|b|..];
  }

  /** Under any two chunkings of one stream, the file and the socket harvester ingest the same complete lines
      if and only if every complete line is one both treat alike. */
  lemma TwoFramersAgree(fileChunks: seq<string>, s: string, o: Options)
    requires Flatten(fileChunks) == s
    ensures FeedChunks(FRESH, fileChunks, o).lines == NonEmpty(Complete(s))
       <==> forall r :: r in Complete(s) ==> SameForBoth(r, o)
  {
    FramingIsChunkIndependent(fileChunks, o);
    RawLinesAgree(Complete(s), o);
  }
}
