/** The bounded capture pipeline (crates/memmux-pty/src/capture.rs): text is split into lines, each
    line is governed, cut to the line cap and pushed into the ring. */
module Capture {
  import opened Prelude
  import opened Line
  import opened Ring
  import opened Governor
  import opened Splitter
  import opened Chunking
  import Truncate
  import Radix

  datatype CaptureConfig = CaptureConfig(ring: RingCaps, governance: GovernanceConfig, maxLineBytes: nat)

  /** The full content of a cut line, for the caller to write to disk. */
  datatype PendingArtifact = PendingArtifact(artifactRef: string, content: Bytes)

  datatype CaptureState = CaptureState(
    ring: RingState,
    governor: GovernorState,
    pending: Bytes,
    artifacts: seq<PendingArtifact>,
    events: seq<Breach>,
    artifactSeq: nat)

  const EMPTY_CAPTURE := CaptureState(EMPTY_RING, NEW_GOVERNOR, [], [], [], 0)

  function ArtifactRef(n: nat): string { "art_" + Radix.Show(n, 10) }

  lemma ArtifactRefsDiffer(m: nat, n: nat)
    requires ArtifactRef(m) == ArtifactRef(n)
    ensures m == n
  {
    assert ArtifactRef(m)[4..] == Radix.Show(m, 10) && ArtifactRef(n)[4..] == Radix.Show(n, 10);
    Radix.ReadShow(m, 10);
    Radix.ReadShow(n, 10);
  }

  function TakeLine(cfg: CaptureConfig, c: CaptureState, line: Bytes, nowMs: nat): CaptureState {
    var (g, outcome) := Govern(cfg.governance, c.governor, |line|, nowMs);
    var governed := c.(governor := g, events := c.events + EventList(outcome));
    if outcome.decision.Store? then StoreLine(cfg, governed, line) else governed
  }

  function StoreLine(cfg: CaptureConfig, c: CaptureState, line: Bytes): CaptureState {
    var pushed := c.(ring := AfterPush(cfg.ring, c.ring, Encode(line, cfg.maxLineBytes, c.artifactSeq)));
    if |line| <= cfg.maxLineBytes then pushed
    else pushed.(artifactSeq := c.artifactSeq + 1,
                 artifacts := c.artifacts + [PendingArtifact(ArtifactRef(c.artifactSeq), line)])
  }

  /** A line as a ring entry, before any collapsing. */
  function Encode(line: Bytes, cap: nat, artifactSeq: nat): StoredLine {
    if |line| <= cap then Text(line)
    else Truncated(line[..Truncate.CutPoint(line, cap)], |line|, ArtifactRef(artifactSeq))
  }

  /** A line within the cap is kept whole; of a longer one, the longest head within the cap that ends
      between two characters. */
  lemma EncodeKeepsMost(line: Bytes, cap: nat, artifactSeq: nat)
    ensures var e := Encode(line, cap, artifactSeq);
      && (|line| <= cap ==> e == Text(line))
      && (|line| > cap ==>
            && e.Truncated? && e.fullBytes == |line| && e.artifactRef == ArtifactRef(artifactSeq)
            && e.head <= line && |e.head| <= Max(cap, 1) && Truncate.IsCharBoundary(line, |e.head|)
            && forall i | |e.head| < i <= Max(cap, 1) :: !Truncate.IsCharBoundary(line, i))
  {
  }

  function EventList(o: Outcome): seq<Breach> {
    if o.event.Some? then [o.event.value] else []
  }

  function TakeLines(cfg: CaptureConfig, c: CaptureState, lines: seq<Bytes>, nowMs: nat): CaptureState {
    if lines == [] then c
    else TakeLine(cfg, TakeLines(cfg, c, lines[..|lines| - 1], nowMs), lines[|lines| - 1], nowMs)
  }

  function AfterIngest(cfg: CaptureConfig, c: CaptureState, data: Bytes, nowMs: nat): CaptureState {
    var fed := Feed(c.pending, data, cfg.maxLineBytes);
    TakeLines(cfg, c.(pending := fed.pending), fed.lines, nowMs)
  }

  function AfterFlush(cfg: CaptureConfig, c: CaptureState, nowMs: nat): CaptureState {
    if c.pending == [] then c else TakeLine(cfg, c.(pending := []), c.pending, nowMs)
  }

  lemma {:induction false} TakeLinesAppend(cfg: CaptureConfig, c: CaptureState,
                                           a: seq<Bytes>, b: seq<Bytes>, nowMs: nat)
    ensures TakeLines(cfg, TakeLines(cfg, c, a, nowMs), b, nowMs) == TakeLines(cfg, c, a + b, nowMs)
  {
    if b == [] {
      assert a + b == a;
    } else {
      TakeLinesAppend(cfg, c, a, b[..|b| - 1], nowMs);
      assert (a + b)[..|a + b| - 1] == a + b[..|b| - 1];
    }
  }

  lemma {:induction false} PendingUntouched(cfg: CaptureConfig, c: CaptureState,
                                            lines: seq<Bytes>, pending: Bytes, nowMs: nat)
    ensures TakeLines(cfg, c.(pending := pending), lines, nowMs) == TakeLines(cfg, c, lines, nowMs).(pending := pending)
    ensures TakeLines(cfg, c, lines, nowMs).pending == c.pending
  {
    if lines != [] {
      PendingUntouched(cfg, c, lines[..|lines| - 1], pending, nowMs);
    }
  }

  lemma TakeNone(cfg: CaptureConfig, c: CaptureState, nowMs: nat)
    ensures TakeLines(cfg, c, [], nowMs) == c
  {
  }

  lemma TakeOneMore(cfg: CaptureConfig, c: CaptureState, taken: seq<Bytes>, line: Bytes, pending: Bytes, nowMs: nat)
    ensures TakeLine(cfg, TakeLines(cfg, c, taken, nowMs).(pending := pending), line, nowMs)
         == TakeLines(cfg, c, taken + [line], nowMs).(pending := pending)
  {
    assert (taken + [line])[..|taken|] == taken;
  }

  // ----- chunking -----

  lemma CountOne(cfg: CaptureConfig, c: CaptureState, line: Bytes, nowMs: nat)
    ensures var g, h := c.governor, TakeLine(cfg, c, line, nowMs).governor;
      if OpensWindow(g, nowMs) then h.windowStartMs == nowMs && h.linesThisWindow == 1
      else h.windowStartMs == g.windowStartMs && h.linesThisWindow == g.linesThisWindow + 1
  {
    hide StoreLine;
    StoringGovernsNothing(cfg, c, line);
    var (g, outcome) := Govern(cfg.governance, c.governor, |line|, nowMs);
    StoringGovernsNothing(cfg, c.(governor := g, events := c.events + EventList(outcome)), line);
  }

  lemma StoringGovernsNothing(cfg: CaptureConfig, c: CaptureState, line: Bytes)
    ensures StoreLine(cfg, c, line).governor == c.governor
  {
  }

  /** At one timestamp the window counter tells how many lines were taken. */
  lemma {:induction false} CounterTellsLines(cfg: CaptureConfig, c: CaptureState, lines: seq<Bytes>, nowMs: nat)
    ensures var g, h := c.governor, TakeLines(cfg, c, lines, nowMs).governor;
      if lines == [] then h == g
      else if OpensWindow(g, nowMs) then h.windowStartMs == nowMs && h.linesThisWindow == |lines|
      else h.windowStartMs == g.windowStartMs && h.linesThisWindow == g.linesThisWindow + |lines|
  {
    if lines != [] {
      CounterTellsLines(cfg, c, lines[..|lines| - 1], nowMs);
      hide TakeLine;
      CountOne(cfg, TakeLines(cfg, c, lines[..|lines| - 1], nowMs), lines[|lines| - 1], nowMs);
    }
  }

  lemma {:induction false} LineCountShows(cfg: CaptureConfig, c: CaptureState, a: seq<Bytes>, b: seq<Bytes>, nowMs: nat)
    requires TakeLines(cfg, c, a, nowMs).governor == TakeLines(cfg, c, b, nowMs).governor
    ensures |a| == |b|
  {
    CounterTellsLines(cfg, c, a, nowMs);
    CounterTellsLines(cfg, c, b, nowMs);
  }

  /** Feeding text in two chunks at one timestamp leaves the very same state as feeding it at
      once if and only if the boundary is clean. */
  lemma TwoChunksIff(cfg: CaptureConfig, c: CaptureState, a: Bytes, b: Bytes, nowMs: nat)
    requires NoTerminator(c.pending) && |c.pending| <= cfg.maxLineBytes
    ensures AfterIngest(cfg, AfterIngest(cfg, c, a, nowMs), b, nowMs) == AfterIngest(cfg, c, a + b, nowMs)
       <==> CleanBoundary(c.pending, a, b, cfg.maxLineBytes)
  {
    var cap := cfg.maxLineBytes;
    var first := Feed(c.pending, a, cap);
    var second := Feed(first.pending, b, cap);
    var once := Feed(c.pending, a + b, cap);
    FeedTwice(c.pending, a, b, cap);
    PendingUntouched(cfg, c, first.lines, first.pending, nowMs);
    var mid := TakeLines(cfg, c, first.lines, nowMs);
    PendingUntouched(cfg, mid, second.lines, second.pending, nowMs);
    TakeLinesAppend(cfg, c, first.lines, second.lines, nowMs);
    PendingUntouched(cfg, c, once.lines, once.pending, nowMs);
    if AfterIngest(cfg, AfterIngest(cfg, c, a, nowMs), b, nowMs) == AfterIngest(cfg, c, a + b, nowMs) {
      LineCountShows(cfg, c, first.lines + second.lines, once.lines, nowMs);
    }
  }

  function IngestAll(cfg: CaptureConfig, c: CaptureState, chunks: seq<Bytes>, nowMs: nat): CaptureState {
    if chunks == [] then c
    else AfterIngest(cfg, IngestAll(cfg, c, chunks[..|chunks| - 1], nowMs), chunks[|chunks| - 1], nowMs)
  }

  lemma IngestIs(cfg: CaptureConfig, c: CaptureState, data: Bytes, nowMs: nat)
    ensures var fed := Feed(c.pending, data, cfg.maxLineBytes);
      AfterIngest(cfg, c, data, nowMs) == TakeLines(cfg, c, fed.lines, nowMs).(pending := fed.pending)
  {
    hide TakeLines, Feed;
    var fed := Feed(c.pending, data, cfg.maxLineBytes);
    PendingUntouched(cfg, c, fed.lines, fed.pending, nowMs);
  }

  lemma {:induction false} IngestAllIs(cfg: CaptureConfig, c: CaptureState, chunks: seq<Bytes>, nowMs: nat)
    ensures var fed := FeedAll(c.pending, chunks, cfg.maxLineBytes);
      IngestAll(cfg, c, chunks, nowMs) == TakeLines(cfg, c, fed.lines, nowMs).(pending := fed.pending)
  {
    hide TakeLines, Feed, AfterIngest;
    if chunks == [] {
      TakeNone(cfg, c, nowMs);
    } else {
      var n := |chunks| - 1;
      IngestAllIs(cfg, c, chunks[..n], nowMs);
      var before := FeedAll(c.pending, chunks[..n], cfg.maxLineBytes);
      var mid := TakeLines(cfg, c, before.lines, nowMs);
      var fed := Feed(before.pending, chunks[n], cfg.maxLineBytes);
      IngestIs(cfg, mid.(pending := before.pending), chunks[n], nowMs);
      PendingUntouched(cfg, mid, fed.lines, before.pending, nowMs);
      TakeLinesAppend(cfg, c, before.lines, fed.lines, nowMs);
    }
  }

  /** Any number of chunks at one timestamp leaves the very same state as the whole text at once if
      and only if every boundary is clean. */
  lemma {:induction false} ChunksDoNotMatterIff(cfg: CaptureConfig, c: CaptureState, chunks: seq<Bytes>, nowMs: nat)
    requires NoTerminator(c.pending) && |c.pending| <= cfg.maxLineBytes
    ensures IngestAll(cfg, c, chunks, nowMs) == AfterIngest(cfg, c, Concat(chunks), nowMs)
       <==> AllClean(c.pending, chunks, cfg.maxLineBytes)
  {
    hide NoTerminator, AllClean, FeedAll, Feed, Concat, TakeLines, IngestAll, AfterIngest;
    var cap := cfg.maxLineBytes;
    var fed, once := FeedAll(c.pending, chunks, cap), Feed(c.pending, Concat(chunks), cap);
    IngestAllIs(cfg, c, chunks, nowMs);
    IngestIs(cfg, c, Concat(chunks), nowMs);
    FeedAllIff(c.pending, chunks, cap);
    if IngestAll(cfg, c, chunks, nowMs) == AfterIngest(cfg, c, Concat(chunks), nowMs) {
      LineCountShows(cfg, c, fed.lines, once.lines, nowMs);
    }
  }

  // ----- whole runs -----

  datatype CaptureOp =
    | Ingest(data: Bytes, nowMs: nat)
    | Flush(nowMs: nat)
    | DrainEvicted
    | DrainArtifacts
    | DrainEvents

  /** A capture buffer and everything drained from it so far. */
  datatype CaptureRun = CaptureRun(
    buf: CaptureState,
    entries: seq<StoredLine>,
    artifacts: seq<PendingArtifact>,
    events: seq<Breach>)
  {
    /** Drained, evicted and resident entries, oldest first. */
    function Record(): seq<StoredLine> { RingPart().Record() }

    function RingPart(): RingRun { RingRun(buf.ring, entries) }

    function AllArtifacts(): seq<PendingArtifact> { artifacts + buf.artifacts }

    function AllEvents(): seq<Breach> { events + buf.events }
  }

  function StepCapture(cfg: CaptureConfig, w: CaptureRun, op: CaptureOp): CaptureRun {
    match op
    case Ingest(data, nowMs) => w.(buf := AfterIngest(cfg, w.buf, data, nowMs))
    case Flush(nowMs) => w.(buf := AfterFlush(cfg, w.buf, nowMs))
    case DrainEvicted =>
      w.(buf := w.buf.(ring := w.buf.ring.(evicted := [])), entries := w.entries + w.buf.ring.evicted)
    case DrainArtifacts => w.(buf := w.buf.(artifacts := []), artifacts := w.artifacts + w.buf.artifacts)
    case DrainEvents => w.(buf := w.buf.(events := []), events := w.events + w.buf.events)
  }

  function RunCapture(cfg: CaptureConfig, ops: seq<CaptureOp>): CaptureRun {
    if ops == [] then CaptureRun(EMPTY_CAPTURE, [], [], [])
    else StepCapture(cfg, RunCapture(cfg, ops[..|ops| - 1]), ops[|ops| - 1])
  }

  datatype SeenLine = SeenLine(text: Bytes, nowMs: nat)

  function Stamp(lines: seq<Bytes>, nowMs: nat): seq<SeenLine> {
    seq(|lines|, i requires 0 <= i < |lines| => SeenLine(lines[i], nowMs))
  }

  /** The lines a run of operations feeds in, by the splitting rule alone, and the text pending. */
  datatype Input = Input(lines: seq<SeenLine>, pending: Bytes)

  function StepInput(cap: nat, before: Input, op: CaptureOp): Input {
    match op
    case Ingest(data, nowMs) =>
      var fed := Feed(before.pending, data, cap);
      Input(before.lines + Stamp(fed.lines, nowMs), fed.pending)
    case Flush(nowMs) =>
      if before.pending == [] then before
      else Input(before.lines + [SeenLine(before.pending, nowMs)], [])
    case _ => before
  }

  function InputOf(cap: nat, ops: seq<CaptureOp>): Input {
    if ops == [] then Input([], [])
    else StepInput(cap, InputOf(cap, ops[..|ops| - 1]), ops[|ops| - 1])
  }

  function Sizes(seen: seq<SeenLine>): seq<LineIn> {
    seq(|seen|, i requires 0 <= i < |seen| => LineIn(|seen[i].text|, seen[i].nowMs))
  }

  /** Of the lines seen, those the governor answers `Store`. */
  function Stored(cfg: GovernanceConfig, seen: seq<SeenLine>): seq<Bytes> {
    if seen == [] then []
    else
      var n := |seen| - 1;
      Stored(cfg, seen[..n]) +
      if RunGovernor(cfg, Sizes(seen)).outcomes[n].decision.Store? then [seen[n].text] else []
  }

  function EventsOf(outcomes: seq<Outcome>): seq<Breach> {
    if outcomes == [] then [] else EventsOf(outcomes[..|outcomes| - 1]) + EventList(outcomes[|outcomes| - 1])
  }

  /** The artifacts of stored lines: one per over-long line, numbered from zero. */
  function ArtifactsOf(stored: seq<Bytes>, cap: nat): seq<PendingArtifact> {
    if stored == [] then []
    else
      var before, line := ArtifactsOf(stored[..|stored| - 1], cap), stored[|stored| - 1];
      if |line| <= cap then before else before + [PendingArtifact(ArtifactRef(|before|), line)]
  }

  /** Stored lines as ring entries, before any collapsing. */
  function Encoded(stored: seq<Bytes>, cap: nat): seq<StoredLine> {
    if stored == [] then []
    else
      var n := |stored| - 1;
      Encoded(stored[..n], cap) + [Encode(stored[n], cap, |ArtifactsOf(stored[..n], cap)|)]
  }

  /** The ring and the artifacts of a run are what the stored lines make them. */
  ghost predicate Holds(cfg: CaptureConfig, w: CaptureRun, stored: seq<Bytes>) {
    && w.AllArtifacts() == ArtifactsOf(stored, cfg.maxLineBytes)
    && w.buf.artifactSeq == |w.AllArtifacts()|
    && Records(cfg.ring, w.RingPart(), Encoded(stored, cfg.maxLineBytes))
  }

  /** A run is what its input lines make it. */
  ghost predicate Explained(cfg: CaptureConfig, w: CaptureRun, seen: seq<SeenLine>) {
    var governed := RunGovernor(cfg.governance, Sizes(seen));
    && w.buf.governor == governed.state
    && w.AllEvents() == EventsOf(governed.outcomes)
    && Holds(cfg, w, Stored(cfg.governance, seen))
  }

  lemma OneMoreSeen(cfg: GovernanceConfig, seen: seq<SeenLine>, line: SeenLine)
    ensures var before := RunGovernor(cfg, Sizes(seen));
      var (g, outcome) := Govern(cfg, before.state, |line.text|, line.nowMs);
      var after := RunGovernor(cfg, Sizes(seen + [line]));
      && after.state == g
      && after.outcomes == before.outcomes + [outcome]
      && EventsOf(after.outcomes) == EventsOf(before.outcomes) + EventList(outcome)
      && Stored(cfg, seen + [line]) == Stored(cfg, seen) + if outcome.decision.Store? then [line.text] else []
  {
    var all := seen + [line];
    assert all[..|seen|] == seen;
    assert Sizes(all)[..|seen|] == Sizes(seen);
    var after := RunGovernor(cfg, Sizes(all));
    assert after.outcomes[..|seen|] == RunGovernor(cfg, Sizes(seen)).outcomes;
  }

  lemma OneMoreStored(stored: seq<Bytes>, line: Bytes, cap: nat)
    ensures Encoded(stored + [line], cap) == Encoded(stored, cap) + [Encode(line, cap, |ArtifactsOf(stored, cap)|)]
    ensures ArtifactsOf(stored + [line], cap) == ArtifactsOf(stored, cap) +
              if |line| <= cap then [] else [PendingArtifact(ArtifactRef(|ArtifactsOf(stored, cap)|), line)]
  {
    assert (stored + [line])[..|stored|] == stored;
  }

  lemma StoreLineHolds(cfg: CaptureConfig, w: CaptureRun, stored: seq<Bytes>, line: Bytes)
    requires Holds(cfg, w, stored)
    ensures Holds(cfg, w.(buf := StoreLine(cfg, w.buf, line)), stored + [line])
    ensures StoreLine(cfg, w.buf, line).governor == w.buf.governor && StoreLine(cfg, w.buf, line).events == w.buf.events
  {
    hide Records, Encode, AfterPush;
    var v := w.(buf := StoreLine(cfg, w.buf, line));
    var entry := Encode(line, cfg.maxLineBytes, w.buf.artifactSeq);
    OneMoreStored(stored, line, cfg.maxLineBytes);
    PushRecorded(cfg.ring, w.RingPart(), Encoded(stored, cfg.maxLineBytes), entry);
    assert v.AllArtifacts() == w.AllArtifacts() +
      if |line| <= cfg.maxLineBytes then [] else [PendingArtifact(ArtifactRef(w.buf.artifactSeq), line)];
  }

  lemma GoverningHolds(cfg: CaptureConfig, w: CaptureRun, stored: seq<Bytes>, g: GovernorState, events: seq<Breach>)
    requires Holds(cfg, w, stored)
    ensures Holds(cfg, w.(buf := w.buf.(governor := g, events := events)), stored)
  {
    var v := w.(buf := w.buf.(governor := g, events := events));
    assert v.AllArtifacts() == w.AllArtifacts() && v.RingPart() == w.RingPart();
  }

  lemma TakeLineExplained(cfg: CaptureConfig, w: CaptureRun, seen: seq<SeenLine>, line: Bytes, nowMs: nat)
    requires Explained(cfg, w, seen)
    ensures Explained(cfg, w.(buf := TakeLine(cfg, w.buf, line, nowMs)), seen + [SeenLine(line, nowMs)])
  {
    hide Govern, Holds, StoreLine, RunGovernor, Stored, EventsOf, Sizes;
    var stored := Stored(cfg.governance, seen);
    var (g, outcome) := Govern(cfg.governance, w.buf.governor, |line|, nowMs);
    OneMoreSeen(cfg.governance, seen, SeenLine(line, nowMs));
    var events := w.buf.events + EventList(outcome);
    assert w.events + events == w.AllEvents() + EventList(outcome);
    var mid := w.(buf := w.buf.(governor := g, events := events));
    GoverningHolds(cfg, w, stored, g, events);
    if outcome.decision.Store? {
      StoreLineHolds(cfg, mid, stored, line);
      assert TakeLine(cfg, w.buf, line, nowMs) == StoreLine(cfg, mid.buf, line);
    } else {
      assert stored + [] == stored;
      assert TakeLine(cfg, w.buf, line, nowMs) == mid.buf;
    }
  }

  lemma {:induction false} TakeLinesExplained(cfg: CaptureConfig, w: CaptureRun, seen: seq<SeenLine>,
                                              lines: seq<Bytes>, nowMs: nat)
    requires Explained(cfg, w, seen)
    ensures Explained(cfg, w.(buf := TakeLines(cfg, w.buf, lines, nowMs)), seen + Stamp(lines, nowMs))
  {
    hide Explained, TakeLine;
    var n := |lines| - 1;
    if lines == [] {
      assert seen + Stamp(lines, nowMs) == seen;
    } else {
      TakeLinesExplained(cfg, w, seen, lines[..n], nowMs);
      var mid := w.(buf := TakeLines(cfg, w.buf, lines[..n], nowMs));
      TakeLineExplained(cfg, mid, seen + Stamp(lines[..n], nowMs), lines[n], nowMs);
      assert seen + Stamp(lines, nowMs) == seen + Stamp(lines[..n], nowMs) + [SeenLine(lines[n], nowMs)];
    }
  }

  lemma PendingDoesNotExplain(cfg: CaptureConfig, w: CaptureRun, seen: seq<SeenLine>, pending: Bytes)
    requires Explained(cfg, w, seen)
    ensures Explained(cfg, w.(buf := w.buf.(pending := pending)), seen)
  {
    var v := w.(buf := w.buf.(pending := pending));
    assert v.RingPart() == w.RingPart() && v.AllArtifacts() == w.AllArtifacts() && v.AllEvents() == w.AllEvents();
  }

  lemma DrainExplained(cfg: CaptureConfig, w: CaptureRun, seen: seq<SeenLine>, op: CaptureOp)
    requires Explained(cfg, w, seen) && (op.DrainEvicted? || op.DrainArtifacts? || op.DrainEvents?)
    ensures Explained(cfg, StepCapture(cfg, w, op), seen) && StepCapture(cfg, w, op).buf.pending == w.buf.pending
  {
    var v := StepCapture(cfg, w, op);
    assert v.AllArtifacts() == w.AllArtifacts() && v.AllEvents() == w.AllEvents();
    if op.DrainEvicted? {
      DrainRecorded(cfg.ring, w.RingPart(), Encoded(Stored(cfg.governance, seen), cfg.maxLineBytes));
      assert v.RingPart() == StepRing(cfg.ring, w.RingPart(), Drain);
    }
  }

  /** Over any run of calls the whole state of the pipeline is a function of the lines fed in:
      the governor's counters and alarms, the numbered artifacts, the caps and the log. After
      every `ingest` the pending tail holds no terminator and fits the line cap. */
  lemma {:induction false} CaptureExplained(cfg: CaptureConfig, ops: seq<CaptureOp>)
    ensures var w, input := RunCapture(cfg, ops), InputOf(cfg.maxLineBytes, ops);
      && Explained(cfg, w, input.lines)
      && w.buf.pending == input.pending
      && NoTerminator(w.buf.pending) && |w.buf.pending| <= cfg.maxLineBytes
  {
    hide Explained, Feed, TakeLine, TakeLines, NoTerminator;
    if ops == [] {
      NothingExplained(cfg);
    } else {
      var n := |ops| - 1;
      CaptureExplained(cfg, ops[..n]);
      StepExplained(cfg, RunCapture(cfg, ops[..n]), InputOf(cfg.maxLineBytes, ops[..n]), ops[n]);
    }
  }

  lemma NothingExplained(cfg: CaptureConfig)
    ensures Explained(cfg, CaptureRun(EMPTY_CAPTURE, [], [], []), []) && NoTerminator([])
  {
    var w := CaptureRun(EMPTY_CAPTURE, [], [], []);
    assert w.Record() == [] && w.AllArtifacts() == [] && w.AllEvents() == [];
    assert Sizes([]) == [];
  }

  lemma StepExplained(cfg: CaptureConfig, w: CaptureRun, before: Input, op: CaptureOp)
    requires Explained(cfg, w, before.lines) && w.buf.pending == before.pending
    requires NoTerminator(before.pending) && |before.pending| <= cfg.maxLineBytes
    ensures var v, after := StepCapture(cfg, w, op), StepInput(cfg.maxLineBytes, before, op);
      && Explained(cfg, v, after.lines)
      && v.buf.pending == after.pending
      && NoTerminator(after.pending) && |after.pending| <= cfg.maxLineBytes
  {
    hide Explained, Feed, TakeLine, TakeLines, NoTerminator;
    match op {
      case Ingest(data, nowMs) =>
        var fed := Feed(w.buf.pending, data, cfg.maxLineBytes);
        FeedLeavesShortTail(w.buf.pending, data, cfg.maxLineBytes);
        PendingDoesNotExplain(cfg, w, before.lines, fed.pending);
        var waiting := w.(buf := w.buf.(pending := fed.pending));
        TakeLinesExplained(cfg, waiting, before.lines, fed.lines, nowMs);
        PendingUntouched(cfg, waiting.buf, fed.lines, fed.pending, nowMs);
      case Flush(nowMs) =>
        if w.buf.pending != [] {
          PendingDoesNotExplain(cfg, w, before.lines, []);
          var waiting := w.(buf := w.buf.(pending := []));
          TakeLineExplained(cfg, waiting, before.lines, w.buf.pending, nowMs);
          TakeNone(cfg, waiting.buf, nowMs);
          TakeOneMore(cfg, waiting.buf, [], w.buf.pending, [], nowMs);
          PendingUntouched(cfg, waiting.buf, [] + [w.buf.pending], [], nowMs);
          Nothing();
        }
      case _ =>
        DrainExplained(cfg, w, before.lines, op);
    }
  }

  // ----- nothing stored is lost -----

  function Lookup(artifacts: seq<PendingArtifact>, ref: string): Option<Bytes> {
    if artifacts == [] then None
    else if artifacts[0].artifactRef == ref then Some(artifacts[0].content)
    else Lookup(artifacts[1..], ref)
  }

  /** The text an expanded entry stands for; a cut line is read back from its artifact. */
  function TextOf(artifacts: seq<PendingArtifact>, e: StoredLine): Option<Bytes> {
    if e.Truncated? then Lookup(artifacts, e.artifactRef) else Some(e.text)
  }

  function Restore(artifacts: seq<PendingArtifact>, log: seq<StoredLine>): seq<Option<Bytes>> {
    var lines := Expand(log);
    seq(|lines|, i requires 0 <= i < |lines| => TextOf(artifacts, lines[i]))
  }

  lemma {:induction false} LookupAt(artifacts: seq<PendingArtifact>, k: nat)
    requires k < |artifacts|
    requires forall i :: 0 <= i < k ==> artifacts[i].artifactRef != artifacts[k].artifactRef
    ensures Lookup(artifacts, artifacts[k].artifactRef) == Some(artifacts[k].content)
  {
    if k > 0 {
      LookupAt(artifacts[1..], k - 1);
    }
  }

  /** Artifact `i` is called "art_i". */
  lemma {:induction false} ArtifactNames(stored: seq<Bytes>, cap: nat)
    ensures forall i :: 0 <= i < |ArtifactsOf(stored, cap)| ==>
      ArtifactsOf(stored, cap)[i].artifactRef == ArtifactRef(i)
  {
    if stored != [] { ArtifactNames(stored[..|stored| - 1], cap); }
  }

  lemma {:induction false} ArtifactsGrow(stored: seq<Bytes>, cap: nat, i: nat)
    requires i <= |stored|
    ensures ArtifactsOf(stored[..i], cap) <= ArtifactsOf(stored, cap)
    decreases |stored|
  {
    if i == |stored| {
      assert stored[..i] == stored;
    } else {
      ArtifactsGrow(stored[..|stored| - 1], cap, i);
      assert stored[..|stored| - 1][..i] == stored[..i];
    }
  }

  lemma {:induction false} EncodedIsPlain(stored: seq<Bytes>, cap: nat)
    ensures |Encoded(stored, cap)| == |stored| && AllPlain(Encoded(stored, cap))
  {
    if stored != [] { EncodedIsPlain(stored[..|stored| - 1], cap); }
  }

  lemma EncodedSnoc(init: seq<Bytes>, last: Bytes, cap: nat)
    ensures Encoded(init + [last], cap) == Encoded(init, cap) + [Encode(last, cap, |ArtifactsOf(init, cap)|)]
  {
    assert (init + [last])[..|init|] == init;
  }

  lemma {:induction false} EncodedAt(stored: seq<Bytes>, cap: nat, i: nat)
    requires i < |stored|
    ensures |Encoded(stored, cap)| == |stored|
    ensures Encoded(stored, cap)[i] == Encode(stored[i], cap, |ArtifactsOf(stored[..i], cap)|)
  {
    hide Encoded, Encode, ArtifactsOf;
    var n := |stored| - 1;
    var init := stored[..n];
    assert stored == init + [stored[n]];
    EncodedIsPlain(init, cap);
    EncodedSnoc(init, stored[n], cap);
    if i < n {
      EncodedAt(init, cap, i);
      assert init[..i] == stored[..i];
    }
  }

  /** Every over-long line has an artifact of its own, found under its name, holding the line. */
  lemma ArtifactOf(stored: seq<Bytes>, cap: nat, i: nat)
    requires i < |stored| && |stored[i]| > cap
    ensures Lookup(ArtifactsOf(stored, cap), ArtifactRef(|ArtifactsOf(stored[..i], cap)|)) == Some(stored[i])
  {
    var all, k := ArtifactsOf(stored, cap), |ArtifactsOf(stored[..i], cap)|;
    ArtifactsGrow(stored, cap, i + 1);
    assert stored[..i + 1] == stored[..i] + [stored[i]];
    OneMoreStored(stored[..i], stored[i], cap);
    assert all[k] == ArtifactsOf(stored[..i + 1], cap)[k];
    ArtifactNames(stored, cap);
    forall j | 0 <= j < k ensures all[j].artifactRef != all[k].artifactRef {
      if all[j].artifactRef == all[k].artifactRef { ArtifactRefsDiffer(j, k); }
    }
    LookupAt(all, k);
  }

  /** The expanded log of a run is the encoding of its stored lines. */
  lemma LogIsEncoded(cfg: CaptureConfig, ops: seq<CaptureOp>) returns (stored: seq<Bytes>)
    ensures stored == Stored(cfg.governance, InputOf(cfg.maxLineBytes, ops).lines)
    ensures var w := RunCapture(cfg, ops);
      && Expand(w.Record()) == Encoded(stored, cfg.maxLineBytes)
      && |Encoded(stored, cfg.maxLineBytes)| == |stored|
      && w.AllArtifacts() == ArtifactsOf(stored, cfg.maxLineBytes)
      && SumRows(w.Record()) == w.buf.ring.totalIngested == |stored|
  {
    CaptureExplained(cfg, ops);
    stored := Stored(cfg.governance, InputOf(cfg.maxLineBytes, ops).lines);
    EncodedIsPlain(stored, cfg.maxLineBytes);
    RecordRestores(cfg.ring, RunCapture(cfg, ops).RingPart(), Encoded(stored, cfg.maxLineBytes));
  }

  /** Lossless capture. Over any run of ingest, flush and drain calls, expanding all drained,
      evicted and resident entries and reading cut lines back from their artifacts gives exactly
      the lines the governor answered `Store`, in order. */
  lemma {:induction false} CaptureIsLossless(cfg: CaptureConfig, ops: seq<CaptureOp>)
    ensures var w := RunCapture(cfg, ops);
      var stored := Stored(cfg.governance, InputOf(cfg.maxLineBytes, ops).lines);
      Restore(w.AllArtifacts(), w.Record()) == seq(|stored|, i requires 0 <= i < |stored| => Some(stored[i]))
  {
    var w, cap := RunCapture(cfg, ops), cfg.maxLineBytes;
    var stored := LogIsEncoded(cfg, ops);
    forall i | 0 <= i < |stored| ensures TextOf(w.AllArtifacts(), Encoded(stored, cap)[i]) == Some(stored[i]) {
      EncodedAt(stored, cap, i);
      if |stored[i]| > cap { ArtifactOf(stored, cap, i); }
    }
  }

  /** The entries show one row for each stored line, and the ring has counted each once. */
  lemma {:induction false} RowsAreStoredLines(cfg: CaptureConfig, ops: seq<CaptureOp>)
    ensures var w := RunCapture(cfg, ops);
      SumRows(w.Record()) == w.buf.ring.totalIngested == |Stored(cfg.governance, InputOf(cfg.maxLineBytes, ops).lines)|
  {
    var stored := LogIsEncoded(cfg, ops);
  }

  /** Every cut entry of the log tells the truth about its artifact: the name is found, the
      length is `fullBytes`, and the head is the longest prefix within the cap that ends on a
      character boundary. */
  lemma CutEntriesAreFaithful(cfg: CaptureConfig, ops: seq<CaptureOp>, i: nat)
    requires i < |Expand(RunCapture(cfg, ops).Record())| && Expand(RunCapture(cfg, ops).Record())[i].Truncated?
    ensures var w := RunCapture(cfg, ops);
      var e := Expand(w.Record())[i];
      var full := Lookup(w.AllArtifacts(), e.artifactRef);
      && full.Some?
      && |full.value| == e.fullBytes > cfg.maxLineBytes
      && e.head <= full.value && |e.head| <= Max(cfg.maxLineBytes, 1)
      && Truncate.IsCharBoundary(full.value, |e.head|)
      && forall i | |e.head| < i <= Max(cfg.maxLineBytes, 1) :: !Truncate.IsCharBoundary(full.value, i)
  {
    var stored := LogIsEncoded(cfg, ops);
    hide Encode, Encoded, ArtifactsOf, Lookup, ArtifactRef, Truncate.IsCharBoundary;
    EncodedAt(stored, cfg.maxLineBytes, i);
    EncodeKeepsMost(stored[i], cfg.maxLineBytes, |ArtifactsOf(stored[..i], cfg.maxLineBytes)|);
    if |stored[i]| > cfg.maxLineBytes { ArtifactOf(stored, cfg.maxLineBytes, i); }
  }

  /** Different cut entries never share an artifact. */
  lemma CutEntriesAreDistinct(cfg: CaptureConfig, ops: seq<CaptureOp>, i: nat, j: nat)
    requires i < j < |Expand(RunCapture(cfg, ops).Record())|
    requires Expand(RunCapture(cfg, ops).Record())[i].Truncated? && Expand(RunCapture(cfg, ops).Record())[j].Truncated?
    ensures Expand(RunCapture(cfg, ops).Record())[i].artifactRef != Expand(RunCapture(cfg, ops).Record())[j].artifactRef
  {
    var cap := cfg.maxLineBytes;
    var stored := LogIsEncoded(cfg, ops);
    EncodedAt(stored, cap, i);
    EncodedAt(stored, cap, j);
    LaterArtifacts(stored, cap, i, j);
  }

  lemma LaterArtifacts(stored: seq<Bytes>, cap: nat, i: nat, j: nat)
    requires i < j < |stored| && |stored[i]| > cap
    ensures ArtifactRef(|ArtifactsOf(stored[..i], cap)|) != ArtifactRef(|ArtifactsOf(stored[..j], cap)|)
  {
    hide ArtifactRef;
    var m, n := |ArtifactsOf(stored[..i], cap)|, |ArtifactsOf(stored[..j], cap)|;
    assert stored[..j][..i + 1] == stored[..i + 1] == stored[..i] + [stored[i]];
    OneMoreStored(stored[..i], stored[i], cap);
    ArtifactsGrow(stored[..j], cap, i + 1);
    if ArtifactRef(m) == ArtifactRef(n) { ArtifactRefsDiffer(m, n); }
  }

  // ----- the object -----

  /** What is fed when the splitting loop has nothing more to split. */
  lemma FedIs(pending: Bytes, data: Bytes, cap: nat, taken: seq<Bytes>, rest: Bytes)
    requires Lines(pending + data) == taken + Lines(rest) && Tail(pending + data) == Tail(rest)
    requires FirstTerminator(rest) == |rest|
    ensures Feed(pending, data, cap) == if |rest| > cap then Fed(taken + [rest], []) else Fed(taken, rest)
  {
    NextLine(rest);
    assert taken + [] == taken;
  }

  lemma MoveOne(taken: seq<Bytes>, line: Bytes, rest: seq<Bytes>)
    ensures taken + [line] + rest == taken + ([line] + rest)
  {
  }

  /** The capture buffer as the program updates it in place. It owns its ring and its governor. */
  class CaptureBuffer {
    const cfg: CaptureConfig
    const buffer: BoundedBuffer
    const governor: OutputGovernor
    var pending: Bytes
    var artifacts: seq<PendingArtifact>
    var events: seq<Breach>
    var artifactSeq: nat

    ghost predicate Valid()
      reads this
    {
      buffer.caps == cfg.ring && governor.cfg == cfg.governance
    }

    function State(): CaptureState
      reads this, buffer, governor
    {
      CaptureState(buffer.State(), governor.State(), pending, artifacts, events, artifactSeq)
    }

    constructor (cfg: CaptureConfig)
      ensures this.cfg == cfg && Valid() && fresh(buffer) && fresh(governor)
      ensures State() == EMPTY_CAPTURE
    {
      this.cfg := cfg;
      buffer := new BoundedBuffer(cfg.ring);
      governor := new OutputGovernor(cfg.governance);
      pending, artifacts, events, artifactSeq := [], [], [], 0;
    }

    method IngestLine(line: Bytes, nowMs: nat)
      requires Valid()
      modifies this, buffer, governor
      ensures Valid() && State() == TakeLine(cfg, old(State()), line, nowMs)
    {
      var outcome := governor.OnLine(|line|, nowMs);
      if outcome.event.Some? {
        events := events + [outcome.event.value];
      }
      match outcome.decision {
        case SampledOut =>
        case QuotaExceeded =>
        case Store =>
          var cut := Truncate.TruncateLine(line, cfg.maxLineBytes);
          match cut {
            case Kept(text) => buffer.Push(Text(text));
            case Cut(head, fullBytes, full) =>
              var ref := ArtifactRef(artifactSeq);
              artifactSeq := artifactSeq + 1;
              artifacts := artifacts + [PendingArtifact(ref, full)];
              buffer.Push(Truncated(head, fullBytes, ref));
          }
      }
    }

    method Ingest(data: Bytes, nowMs: nat)
      requires Valid()
      modifies this, buffer, governor
      ensures Valid() && State() == AfterIngest(cfg, old(State()), data, nowMs)
      ensures NoTerminator(pending) && |pending| <= cfg.maxLineBytes
    {
      hide TakeLine, TakeLines, Lines, Tail, NoTerminator, Feed, AfterIngest;
      ghost var start, whole := State(), pending + data;
      ghost var fed := Feed(pending, data, cfg.maxLineBytes);
      ghost var taken: seq<Bytes> := [];
      TakeNone(cfg, start, nowMs);
      pending := pending + data;
      while true
        invariant Valid()
        invariant State() == TakeLines(cfg, start, taken, nowMs).(pending := pending)
        invariant Lines(whole) == taken + Lines(pending) && Tail(whole) == Tail(pending)
        decreases |pending|
      {
        var idx := FirstTerminator(pending);
        NextLine(pending);
        if idx < |pending| {
          var line := pending[..idx];
          var cut := idx + 1;
          if pending[idx] == CR && idx + 1 < |pending| && pending[idx + 1] == LF {
            cut := cut + 1;
          }
          pending := pending[cut..];
          MoveOne(taken, line, Lines(pending));
          TakeOneMore(cfg, start, taken, line, pending, nowMs);
          IngestLine(line, nowMs);
          taken := taken + [line];
        } else if |pending| > cfg.maxLineBytes {
          var line := pending;
          pending := [];
          TakeOneMore(cfg, start, taken, line, pending, nowMs);
          IngestLine(line, nowMs);
          FedIs(start.pending, data, cfg.maxLineBytes, taken, line);
          taken := taken + [line];
          break;
        } else {
          FedIs(start.pending, data, cfg.maxLineBytes, taken, pending);
          break;
        }
      }
      IngestIs(cfg, start, data, nowMs);
      FeedLeavesShortTail(start.pending, data, cfg.maxLineBytes);
    }

    method Flush(nowMs: nat)
      requires Valid()
      modifies this, buffer, governor
      ensures Valid() && State() == AfterFlush(cfg, old(State()), nowMs)
    {
      if pending != [] {
        var line := pending;
        pending := [];
        IngestLine(line, nowMs);
      }
    }

    method DrainEvicted() returns (out: seq<StoredLine>)
      requires Valid()
      modifies buffer
      ensures out == old(buffer.evicted)
      ensures State() == old(State()).(ring := old(State()).ring.(evicted := []))
    {
      out := buffer.DrainEvicted();
    }

    method DrainArtifacts() returns (out: seq<PendingArtifact>)
      modifies this
      ensures out == old(artifacts) && State() == old(State()).(artifacts := [])
    {
      out := artifacts;
      artifacts := [];
    }

    method DrainEvents() returns (out: seq<Breach>)
      modifies this
      ensures out == old(events) && State() == old(State()).(events := [])
    {
      out := events;
      events := [];
    }
  }
}
