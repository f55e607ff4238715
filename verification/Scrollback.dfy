/** Capture and history together: the daemon appends what a capture buffer evicts to the chunk
    store of its task (crates/memmuxd/src/daemon.rs), and a client pages through the store. */
module Scrollback {
  import opened Prelude
  import opened Capture
  import opened History
  import Governor

  datatype Op =
    | Ingest(data: Bytes, nowMs: nat)
    | FlushTail(nowMs: nat)
    | Spill
    | FlushStore
    | TakeArtifacts
    | TakeEvents

  /** A capture buffer, the chunk store of its task, and what was handed to disk and to the audit log. */
  datatype System = System(
    buf: CaptureState,
    store: StoreState,
    artifacts: seq<PendingArtifact>,
    events: seq<Governor.Breach>)

  const START := System(EMPTY_CAPTURE, EMPTY_STORE, [], [])

  function Step(cfg: CaptureConfig, chunkLines: nat, w: System, op: Op): System {
    match op
    case Ingest(data, nowMs) => w.(buf := AfterIngest(cfg, w.buf, data, nowMs))
    case FlushTail(nowMs) => w.(buf := AfterFlush(cfg, w.buf, nowMs))
    case Spill =>
      w.(buf := w.buf.(ring := w.buf.ring.(evicted := [])),
         store := Appended(chunkLines, w.store, w.buf.ring.evicted))
    case FlushStore => w.(store := Flushed(w.store))
    case TakeArtifacts => w.(buf := w.buf.(artifacts := []), artifacts := w.artifacts + w.buf.artifacts)
    case TakeEvents => w.(buf := w.buf.(events := []), events := w.events + w.buf.events)
  }

  function Run(cfg: CaptureConfig, chunkLines: nat, ops: seq<Op>): System {
    if ops == [] then START
    else Step(cfg, chunkLines, Run(cfg, chunkLines, ops[..|ops| - 1]), ops[|ops| - 1])
  }

  /** What a run does to the capture buffer. */
  function OnCapture(op: Op): seq<CaptureOp> {
    match op
    case Ingest(data, nowMs) => [CaptureOp.Ingest(data, nowMs)]
    case FlushTail(nowMs) => [CaptureOp.Flush(nowMs)]
    case Spill => [DrainEvicted]
    case FlushStore => []
    case TakeArtifacts => [DrainArtifacts]
    case TakeEvents => [DrainEvents]
  }

  function CaptureOps(ops: seq<Op>): seq<CaptureOp> {
    if ops == [] then [] else CaptureOps(ops[..|ops| - 1]) + OnCapture(ops[|ops| - 1])
  }

  /** The store holds, as its log, exactly what the run of the buffer has drained. */
  ghost predicate Tracks(w: System, r: CaptureRun, chunkLines: nat) {
    && w.store.Valid() && |w.store.pending| < chunkLines
    && w.store.Log() == r.entries
    && w.buf == r.buf && w.artifacts == r.artifacts && w.events == r.events
  }

  lemma StepTracks(cfg: CaptureConfig, chunkLines: nat, w: System, r: CaptureRun, op: Op)
    requires chunkLines >= 1 && Tracks(w, r, chunkLines)
    ensures op.FlushStore? ==> Tracks(Step(cfg, chunkLines, w, op), r, chunkLines)
    ensures !op.FlushStore? ==>
      |OnCapture(op)| == 1 && Tracks(Step(cfg, chunkLines, w, op), StepCapture(cfg, r, OnCapture(op)[0]), chunkLines)
  {
    hide AfterIngest, AfterFlush, Appended, Flushed, w.store.Valid, w.store.Log;
    AppendedLog(chunkLines, w.store, w.buf.ring.evicted);
    FlushedKeepsLog(w.store);
  }

  lemma {:induction false} RunTracks(cfg: CaptureConfig, chunkLines: nat, ops: seq<Op>)
    requires chunkLines >= 1
    ensures Tracks(Run(cfg, chunkLines, ops), RunCapture(cfg, CaptureOps(ops)), chunkLines)
  {
    hide Tracks, Step, StepCapture;
    if ops == [] {
      StartTracks(chunkLines);
    } else {
      var n := |ops| - 1;
      RunTracks(cfg, chunkLines, ops[..n]);
      var before := CaptureOps(ops[..n]);
      StepTracks(cfg, chunkLines, Run(cfg, chunkLines, ops[..n]), RunCapture(cfg, before), ops[n]);
      if ops[n].FlushStore? {
        assert CaptureOps(ops) == before;
      } else {
        assert CaptureOps(ops) == before + [OnCapture(ops[n])[0]];
        assert (before + [OnCapture(ops[n])[0]])[..|before|] == before;
      }
    }
  }

  lemma StartTracks(chunkLines: nat)
    requires chunkLines >= 1
    ensures Tracks(START, CaptureRun(EMPTY_CAPTURE, [], [], []), chunkLines)
  {
  }

  /** The lines fed in over a run, of which the governor answered `Store`. */
  function StoredLines(cfg: CaptureConfig, ops: seq<Op>): seq<Bytes> {
    Stored(cfg.governance, InputOf(cfg.maxLineBytes, CaptureOps(ops)).lines)
  }

  /** The whole path. Whatever was ingested, spilled and flushed, in whatever order and into chunks
      of whatever size: pages of any size read from the store, followed by what is still in the
      buffer, restore exactly the stored lines in order; and less than one chunk of history is
      ever in memory. */
  lemma {:induction false} PagedCaptureIsLossless(cfg: CaptureConfig, chunkLines: nat, ops: seq<Op>, pageSize: nat)
    requires chunkLines >= 1 && pageSize >= 1
    ensures var w := Run(cfg, chunkLines, ops);
      var stored := StoredLines(cfg, ops);
      && w.store.Valid() && |w.store.pending| < chunkLines
      && Restore(w.artifacts + w.buf.artifacts,
                 PagesFrom(w.store.Log(), 0, pageSize) + w.buf.ring.evicted + w.buf.ring.lines)
           == seq(|stored|, i requires 0 <= i < |stored| => Some(stored[i]))
  {
    hide Run, RunCapture, Stored, InputOf, CaptureOps, PagesFrom, Restore;
    RunTracks(cfg, chunkLines, ops);
    var w := Run(cfg, chunkLines, ops);
    PagingRebuildsLog(w.store.Log(), 0, pageSize);
    assert w.store.Log()[0..] == w.store.Log();
    CaptureIsLossless(cfg, CaptureOps(ops));
  }

  /** Move everything evicted since the last spill into the history. */
  method SpillEvicted(buffer: CaptureBuffer, store: ChunkStore,
                      ghost artifacts: seq<PendingArtifact>, ghost events: seq<Governor.Breach>)
    requires buffer.Valid() && store.Valid()
    modifies buffer.buffer, store
    ensures store.Valid()
    ensures System(buffer.State(), store.State(), artifacts, events)
         == Step(buffer.cfg, store.chunkLines, old(System(buffer.State(), store.State(), artifacts, events)), Spill)
  {
    var evicted := buffer.DrainEvicted();
    store.Append(evicted);
  }
}
