/** The capped, run-collapsing ring of resident lines (crates/memmux-pty/src/ring.rs). */
module Ring {
  import opened Prelude
  import opened Line

  datatype RingCaps = RingCaps(maxLines: nat, maxBytes: nat)

  datatype RingState = RingState(
    lines: seq<StoredLine>,
    residentBytes: nat,
    totalIngested: nat,
    evicted: seq<StoredLine>)

  const EMPTY_RING := RingState([], 0, 0, [])

  predicate OverCap(caps: RingCaps, r: RingState) {
    |r.lines| > caps.maxLines || (r.residentBytes > caps.maxBytes && |r.lines| > 1)
  }

  /** Evict the oldest entry. */
  function EvictOne(r: RingState): RingState
    requires r.lines != []
  {
    r.(lines := r.lines[1..],
       residentBytes := SaturatingSub(r.residentBytes, r.lines[0].ResidentBytes()),
       evicted := r.evicted + [r.lines[0]])
  }

  function Enforced(caps: RingCaps, r: RingState): RingState
    decreases |r.lines|
  {
    if OverCap(caps, r) then Enforced(caps, EvictOne(r)) else r
  }

  /** The entry after one more line with its key arrives. */
  function Extend(last: StoredLine): StoredLine
    requires !last.Truncated?
  {
    Repeated(last.text, if last.Text? then 2 else last.count + 1)
  }

  /** A log after one more line, when nothing is ever evicted. */
  function Absorb(log: seq<StoredLine>, line: StoredLine): seq<StoredLine> {
    if log != [] && SameKey(line, log[|log| - 1])
    then log[..|log| - 1] + [Extend(log[|log| - 1])]
    else log + [line]
  }

  function AfterPush(caps: RingCaps, r: RingState, line: StoredLine): RingState {
    var counted := r.(totalIngested := r.totalIngested + 1);
    if r.lines != [] && SameKey(line, r.lines[|r.lines| - 1])
    then counted.(lines := Absorb(r.lines, line))
    else Enforced(caps, counted.(lines := r.lines + [line],
                                    residentBytes := r.residentBytes + line.ResidentBytes()))
  }

  // ----- one push -----

  ghost predicate Accounted(r: RingState) {
    r.residentBytes == SumBytes(r.lines)
  }

  /** What every state of the ring satisfies. */
  ghost predicate WithinCaps(caps: RingCaps, r: RingState) {
    Accounted(r) && |r.lines| <= caps.maxLines && (r.residentBytes <= caps.maxBytes || |r.lines| <= 1)
  }

  predicate TooMuch(caps: RingCaps, lines: seq<StoredLine>) {
    |lines| > caps.maxLines || (SumBytes(lines) > caps.maxBytes && |lines| > 1)
  }

  lemma DropFirst(lines: seq<StoredLine>, k: nat)
    requires k < |lines|
    ensures lines[1..][k..] == lines[k + 1..]
  {
  }

  lemma TakeFirst(evicted: seq<StoredLine>, lines: seq<StoredLine>, k: nat)
    requires k < |lines|
    ensures evicted + [lines[0]] + lines[1..][..k] == evicted + lines[..k + 1]
  {
  }

  /** The first `k` entries are the fewest to leave out. */
  ghost predicate IsLeastCut(caps: RingCaps, lines: seq<StoredLine>, k: nat) {
    k <= |lines| && !TooMuch(caps, lines[k..]) && forall j | 0 <= j < k :: TooMuch(caps, lines[j..])
  }

  lemma CutGrows(caps: RingCaps, lines: seq<StoredLine>, k: nat)
    requires lines != [] && TooMuch(caps, lines) && IsLeastCut(caps, lines[1..], k)
    ensures IsLeastCut(caps, lines, k + 1)
  {
    hide TooMuch;
    DropFirst(lines, k);
    assert lines[0..] == lines;
    forall j | 0 < j < k + 1 ensures TooMuch(caps, lines[j..]) {
      DropFirst(lines, j - 1);
    }
  }

  lemma NoCut(caps: RingCaps, lines: seq<StoredLine>)
    requires !TooMuch(caps, lines)
    ensures IsLeastCut(caps, lines, 0)
  {
    assert lines[0..] == lines;
  }

  /** A state evicted from the front by `k` entries. */
  ghost function CutBy(r: RingState, k: nat): RingState
    requires k <= |r.lines|
  {
    RingState(r.lines[k..], SumBytes(r.lines[k..]), r.totalIngested, r.evicted + r.lines[..k])
  }

  lemma CutByMore(r: RingState, k: nat)
    requires Accounted(r) && k < |r.lines|
    ensures CutBy(EvictOne(r), k) == CutBy(r, k + 1) && Accounted(EvictOne(r))
  {
    DropFirst(r.lines, k);
    TakeFirst(r.evicted, r.lines, k);
  }

  lemma CutByNone(r: RingState)
    requires Accounted(r)
    ensures CutBy(r, 0) == r
  {
    assert r.lines[0..] == r.lines && r.evicted + r.lines[..0] == r.evicted;
  }

  /** Eviction takes a prefix of the entries, exactly as long as it has to be: the rest is within
      the caps, and stopping one entry earlier would not have been enough. */
  lemma {:induction false} EnforcedIsLeast(caps: RingCaps, r: RingState) returns (k: nat)
    requires Accounted(r)
    ensures IsLeastCut(caps, r.lines, k) && Enforced(caps, r) == CutBy(r, k)
    ensures caps.maxLines >= 1 && r.lines != [] ==> k < |r.lines|
    decreases |r.lines|
  {
    assert OverCap(caps, r) == TooMuch(caps, r.lines);
    if OverCap(caps, r) {
      var s := EvictOne(r);
      assert s.lines == r.lines[1..] && Enforced(caps, r) == Enforced(caps, s);
      assert s.lines == [] ==> caps.maxLines == 0;
      hide TooMuch, SumBytes, Accounted, OverCap, EvictOne, Enforced, IsLeastCut, CutBy;
      CutByMore(r, 0);
      var k' := EnforcedIsLeast(caps, s);
      k := k' + 1;
      CutIsWithin(caps, s.lines, k');
      CutByMore(r, k');
      CutGrows(caps, r.lines, k');
    } else {
      k := 0;
      CutByNone(r);
      NoCut(caps, r.lines);
    }
  }

  lemma CutIsWithin(caps: RingCaps, lines: seq<StoredLine>, k: nat)
    requires IsLeastCut(caps, lines, k)
    ensures k <= |lines|
  {
  }

  lemma {:induction false} ExtendKeepsBytes(lines: seq<StoredLine>, line: StoredLine)
    requires lines != [] && SameKey(line, lines[|lines| - 1])
    ensures SumBytes(Absorb(lines, line)) == SumBytes(lines)
  {
    var n := |lines| - 1;
    assert lines == lines[..n] + [lines[n]];
    SumBytesAppend(lines[..n], [lines[n]]);
    SumBytesAppend(lines[..n], [Extend(lines[n])]);
  }

  /** What a push does to the whole record of the ring, evicted entries first: the newest entry
      absorbs the line, and nothing else is touched. With room for no line at all, the line is
      appended to the evicted ones instead. */
  lemma PushRecord(caps: RingCaps, r: RingState, line: StoredLine)
    requires WithinCaps(caps, r)
    ensures var s := AfterPush(caps, r, line);
      && WithinCaps(caps, s)
      && s.totalIngested == r.totalIngested + 1
      && s.evicted + s.lines == r.evicted + Absorb(r.lines, line)
      && r.evicted <= s.evicted
      && (caps.maxLines >= 1 ==> s.lines != [])
  {
    if r.lines != [] && SameKey(line, r.lines[|r.lines| - 1]) {
      ExtendKeepsBytes(r.lines, line);
    } else {
      var grown := r.(totalIngested := r.totalIngested + 1, lines := r.lines + [line],
                      residentBytes := r.residentBytes + line.ResidentBytes());
      SumBytesAppend(r.lines, [line]);
      assert SumBytes([line]) == line.ResidentBytes();
      hide SumBytes, Enforced;
      EnforcedKeepsRecord(caps, grown);
    }
  }

  lemma EnforcedKeepsRecord(caps: RingCaps, r: RingState)
    requires Accounted(r)
    ensures var s := Enforced(caps, r);
      && WithinCaps(caps, s)
      && s.totalIngested == r.totalIngested
      && s.evicted + s.lines == r.evicted + r.lines
      && r.evicted <= s.evicted
      && (caps.maxLines >= 1 && r.lines != [] ==> s.lines != [])
  {
    var k := EnforcedIsLeast(caps, r);
    assert r.lines[..k] + r.lines[k..] == r.lines;
    assert r.evicted + r.lines[..k] + r.lines[k..] == r.evicted + (r.lines[..k] + r.lines[k..]);
  }

  /** Rows of the whole record grow by the rows of the pushed line, except when an
      already-collapsed run of more or fewer than one row is folded into the newest entry. */
  lemma PushRows(caps: RingCaps, r: RingState, line: StoredLine)
    requires WithinCaps(caps, r)
    ensures var s := AfterPush(caps, r, line);
      SumRows(s.evicted + s.lines) == SumRows(r.evicted + r.lines) + line.RenderedRows()
      <==> !(line.Repeated? && line.count != 1 && r.lines != [] && SameKey(line, r.lines[|r.lines| - 1]))
  {
    hide AfterPush, WithinCaps, Absorb, SumRows, SameKey;
    PushRecord(caps, r, line);
    SumRowsAppend(r.evicted, r.lines);
    SumRowsAppend(r.evicted, Absorb(r.lines, line));
    AbsorbRows(r.lines, line);
  }

  lemma RowsSnoc(lines: seq<StoredLine>, e: StoredLine)
    ensures SumRows(lines + [e]) == SumRows(lines) + e.RenderedRows()
  {
    SumRowsAppend(lines, [e]);
    assert [e][1..] == [];
  }

  lemma ExtendRows(init: seq<StoredLine>, last: StoredLine)
    requires !last.Truncated?
    ensures SumRows(init + [Extend(last)]) == SumRows(init + [last]) + 1
  {
    assert Extend(last).RenderedRows() == last.RenderedRows() + 1;
    hide SumRows, Extend;
    RowsSnoc(init, last);
    RowsSnoc(init, Extend(last));
  }

  lemma LastApart(lines: seq<StoredLine>)
    requires lines != []
    ensures lines == lines[..|lines| - 1] + [lines[|lines| - 1]]
  {
  }

  lemma AbsorbRows(lines: seq<StoredLine>, line: StoredLine)
    ensures SumRows(Absorb(lines, line)) == SumRows(lines) +
      if lines != [] && SameKey(line, lines[|lines| - 1]) then 1 else line.RenderedRows()
  {
    hide SumRows, Extend;
    if lines != [] && SameKey(line, lines[|lines| - 1]) {
      LastApart(lines);
      ExtendRows(lines[..|lines| - 1], lines[|lines| - 1]);
    } else {
      RowsSnoc(lines, line);
    }
  }

  // ----- run-length encoding -----

  /** The run-length encoding of a sequence of lines. */
  function Runs(ls: seq<StoredLine>): seq<StoredLine> {
    if ls == [] then [] else Absorb(Runs(ls[..|ls| - 1]), ls[|ls| - 1])
  }

  /** No two neighbours could have been collapsed, and every run has at least two rows. */
  ghost predicate Canonical(log: seq<StoredLine>) {
    && (forall i :: 0 <= i < |log| && log[i].Repeated? ==> log[i].count >= 2)
    && (forall i :: 0 <= i < |log| - 1 ==> !SameKey(log[i], log[i + 1]))
  }

  ghost predicate AllPlain(ls: seq<StoredLine>) {
    forall i :: 0 <= i < |ls| ==> ls[i].Plain()
  }

  lemma UnfoldExtend(e: StoredLine)
    requires !e.Truncated?
    ensures Unfold(Extend(e)) == Unfold(e) + [Text(e.text)]
  {
  }

  lemma AbsorbExpands(log: seq<StoredLine>, line: StoredLine)
    requires line.Plain()
    ensures Expand(Absorb(log, line)) == Expand(log) + [line]
  {
    hide Expand;
    var n := |log| - 1;
    if log != [] && SameKey(line, log[n]) {
      assert log == log[..n] + [log[n]];
      UnfoldExtend(log[n]);
      ExpandSnoc(log[..n], log[n]);
      ExpandSnoc(log[..n], Extend(log[n]));
    } else {
      ExpandSnoc(log, line);
    }
  }

  lemma AbsorbCanonical(log: seq<StoredLine>, line: StoredLine)
    requires Canonical(log) && line.Plain()
    ensures Canonical(Absorb(log, line))
  {
    hide Canonical;
    if log == [] {
      CanonicalSnoc(log, line);
    } else {
      var n := |log| - 1;
      assert log == log[..n] + [log[n]];
      CanonicalPrefix(log[..n], log[n]);
      if SameKey(line, log[n]) {
        CanonicalSnoc(log[..n], Extend(log[n]));
      } else {
        CanonicalSnoc(log, line);
      }
    }
  }

  /** Collapsing loses nothing and leaves nothing to collapse. */
  lemma {:induction false} RunsEncode(ls: seq<StoredLine>)
    requires AllPlain(ls)
    ensures Expand(Runs(ls)) == ls && Canonical(Runs(ls))
  {
    hide Expand, Canonical, Absorb;
    if ls == [] {
      NothingIsCanonical();
    } else {
      var n := |ls| - 1;
      RunsEncode(ls[..n]);
      AbsorbCanonical(Runs(ls[..n]), ls[n]);
      AbsorbExpands(Runs(ls[..n]), ls[n]);
      assert ls == ls[..n] + [ls[n]];
    }
  }

  lemma NothingIsCanonical()
    ensures Canonical([]) && Expand([]) == []
  {
  }

  /** The canonical encoding is unique, so `Runs` is the only log a ring may show. */
  lemma {:induction false} CanonicalIsRuns(log: seq<StoredLine>)
    requires Canonical(log)
    ensures Runs(Expand(log)) == log
    decreases SumRows(log), |log|
  {
    hide Canonical, Absorb, Expand, Runs, SumRows;
    if log == [] {
      assert Runs(Expand([])) == [] by { NothingIsCanonical(); RunsOfNothing(); }
    } else {
      var n := |log| - 1;
      var init, last := log[..n], log[n];
      assert log == init + [last];
      if last.Repeated? {
        ShortenRun(init, last);
        CanonicalIsRuns(init + [Shorter(last)]);
        RunsSnoc(Expand(init + [Shorter(last)]), Text(last.text));
      } else {
        DropPlain(init, last);
        CanonicalIsRuns(init);
        RunsSnoc(Expand(init), last);
      }
    }
  }

  lemma RunsOfNothing()
    ensures Runs([]) == []
  {
  }

  lemma DropPlain(init: seq<StoredLine>, last: StoredLine)
    requires last.Plain() && Canonical(init + [last])
    ensures Canonical(init) && SumRows(init) <= SumRows(init + [last])
    ensures Expand(init + [last]) == Expand(init) + [last]
    ensures Absorb(init, last) == init + [last]
  {
    hide Expand;
    ExpandSnoc(init, last);
    SumRowsAppend(init, [last]);
    CanonicalPrefix(init, last);
  }

  lemma CanonicalPrefix(init: seq<StoredLine>, last: StoredLine)
    requires Canonical(init + [last])
    ensures Canonical(init) && (last.Repeated? ==> last.count >= 2)
    ensures init != [] ==> !SameKey(init[|init| - 1], last)
  {
    var log := init + [last];
    forall i | 0 <= i < |init| ensures log[i] == init[i] && (i < |init| - 1 ==> !SameKey(init[i], init[i + 1])) {
      assert !SameKey(log[i], log[i + 1]);
    }
    assert log[|init|] == last;
  }

  /** A run with its newest line taken back. */
  function Shorter(e: StoredLine): StoredLine
    requires e.Repeated? && e.count >= 2
  {
    if e.count == 2 then Text(e.text) else Repeated(e.text, e.count - 1)
  }

  lemma ShortenRun(init: seq<StoredLine>, last: StoredLine)
    requires last.Repeated? && Canonical(init + [last])
    ensures last.count >= 2
    ensures var prev := init + [Shorter(last)];
      && Canonical(prev)
      && SumRows(prev) + 1 == SumRows(init + [last])
      && Expand(init + [last]) == Expand(prev) + [Text(last.text)]
      && Absorb(prev, Text(last.text)) == init + [last]
  {
    hide Expand, Canonical;
    CanonicalPrefix(init, last);
    CanonicalSnoc(init, Shorter(last));
    SumRowsAppend(init, [last]);
    SumRowsAppend(init, [Shorter(last)]);
    ShorterExpands(init, last);
    assert (init + [Shorter(last)])[..|init|] == init;
  }

  lemma ShorterExpands(init: seq<StoredLine>, last: StoredLine)
    requires last.Repeated? && last.count >= 2
    ensures Expand(init + [last]) == Expand(init + [Shorter(last)]) + [Text(last.text)]
  {
    hide Expand;
    ExpandSnoc(init, last);
    ExpandSnoc(init, Shorter(last));
    UnfoldExtend(Shorter(last));
    assert Extend(Shorter(last)) == last;
  }

  lemma CanonicalSnoc(init: seq<StoredLine>, last: StoredLine)
    requires Canonical(init) && (last.Repeated? ==> last.count >= 2)
    requires init != [] ==> !SameKey(init[|init| - 1], last)
    ensures Canonical(init + [last])
  {
    var log := init + [last];
    forall i | 0 <= i < |log| - 1 ensures !SameKey(log[i], log[i + 1]) {
      if i < |init| - 1 { assert !SameKey(init[i], init[i + 1]); }
    }
  }

  lemma RunsSnoc(ls: seq<StoredLine>, line: StoredLine)
    ensures Runs(ls + [line]) == Absorb(Runs(ls), line)
  {
    assert (ls + [line])[..|ls|] == ls;
  }

  // ----- whole runs -----

  datatype RingOp = PushLine(line: StoredLine) | Drain

  /** A ring and everything drained from it so far. */
  datatype RingRun = RingRun(ring: RingState, drained: seq<StoredLine>) {
    function Record(): seq<StoredLine> { drained + ring.evicted + ring.lines }
  }

  function StepRing(caps: RingCaps, w: RingRun, op: RingOp): RingRun {
    match op
    case PushLine(line) => w.(ring := AfterPush(caps, w.ring, line))
    case Drain => RingRun(w.ring.(evicted := []), w.drained + w.ring.evicted)
  }

  function RunRing(caps: RingCaps, ops: seq<RingOp>): RingRun {
    if ops == [] then RingRun(EMPTY_RING, [])
    else StepRing(caps, RunRing(caps, ops[..|ops| - 1]), ops[|ops| - 1])
  }

  function Pushed(ops: seq<RingOp>): seq<StoredLine> {
    if ops == [] then []
    else
      var n := |ops| - 1;
      Pushed(ops[..n]) + if ops[n].PushLine? then [ops[n].line] else []
  }

  lemma StepKeepsRecord(caps: RingCaps, w: RingRun, op: RingOp)
    requires WithinCaps(caps, w.ring)
    requires caps.maxLines >= 1 && w.ring.lines == [] ==> w.Record() == []
    ensures var v := StepRing(caps, w, op);
      && WithinCaps(caps, v.ring)
      && (caps.maxLines >= 1 && v.ring.lines == [] ==> v.Record() == [])
      && v.ring.totalIngested == w.ring.totalIngested + (if op.Drain? then 0 else 1)
      && v.Record() == if op.Drain? then w.Record()
                       else if caps.maxLines >= 1 then Absorb(w.Record(), op.line)
                       else w.Record() + [op.line]
  {
    hide WithinCaps, AfterPush, SameKey;
    var v := StepRing(caps, w, op);
    match op
    case Drain =>
      assert v.Record() == w.Record();
      assert WithinCaps(caps, v.ring) by { DrainKeepsCaps(caps, w.ring); }
    case PushLine(line) =>
      PushRecord(caps, w.ring, line);
      assert v.Record() == w.drained + (v.ring.evicted + v.ring.lines);
      assert v.Record() == w.drained + w.ring.evicted + Absorb(w.ring.lines, line);
      if w.ring.lines != [] {
        AbsorbAfter(w.drained + w.ring.evicted, w.ring.lines, line);
      } else if caps.maxLines == 0 {
        assert w.ring.lines + [line] == [line];
      } else {
        assert w.Record() == [] && w.drained + w.ring.evicted == [];
      }
      if caps.maxLines == 0 {
        assert w.ring.lines == [] by { NoRoom(caps, w.ring); }
      }
  }

  lemma DrainKeepsCaps(caps: RingCaps, r: RingState)
    requires WithinCaps(caps, r)
    ensures WithinCaps(caps, r.(evicted := []))
  {
  }

  lemma NoRoom(caps: RingCaps, r: RingState)
    requires WithinCaps(caps, r) && caps.maxLines == 0
    ensures r.lines == []
  {
  }

  lemma AbsorbAfter(before: seq<StoredLine>, lines: seq<StoredLine>, line: StoredLine)
    requires lines != []
    ensures Absorb(before + lines, line) == before + Absorb(lines, line)
  {
    var log := before + lines;
    assert log[..|log| - 1] == before + lines[..|lines| - 1];
  }

  /** The ring's whole state is explained by the lines pushed. The caps and the byte account hold,
      every push is counted, and what has been drained, evicted or is still resident is one log:
      the run-length encoding of the pushed lines, however small the caps are — or, for a ring
      with room for no line, the pushed lines themselves. */
  ghost predicate Records(caps: RingCaps, w: RingRun, pushed: seq<StoredLine>) {
    && WithinCaps(caps, w.ring)
    && w.ring.totalIngested == |pushed|
    && w.Record() == (if caps.maxLines >= 1 then Runs(pushed) else pushed)
    && (caps.maxLines >= 1 && w.ring.lines == [] ==> w.Record() == [])
  }

  lemma PushRecorded(caps: RingCaps, w: RingRun, pushed: seq<StoredLine>, line: StoredLine)
    requires Records(caps, w, pushed)
    ensures Records(caps, StepRing(caps, w, PushLine(line)), pushed + [line])
  {
    StepKeepsRecord(caps, w, PushLine(line));
    RunsSnoc(pushed, line);
  }

  lemma DrainRecorded(caps: RingCaps, w: RingRun, pushed: seq<StoredLine>)
    requires Records(caps, w, pushed)
    ensures Records(caps, StepRing(caps, w, Drain), pushed)
  {
    StepKeepsRecord(caps, w, Drain);
  }

  /** The ring over any run of pushes and drains. */
  lemma {:induction false} RingRecord(caps: RingCaps, ops: seq<RingOp>)
    ensures Records(caps, RunRing(caps, ops), Pushed(ops))
  {
    if ops != [] {
      var n := |ops| - 1;
      RingRecord(caps, ops[..n]);
      match ops[n] {
        case PushLine(line) => PushRecorded(caps, RunRing(caps, ops[..n]), Pushed(ops[..n]), line);
        case Drain =>
          DrainRecorded(caps, RunRing(caps, ops[..n]), Pushed(ops[..n]));
          assert Pushed(ops[..n]) + [] == Pushed(ops[..n]);
      }
    }
  }

  /** A log explained by plain lines gives them back. */
  lemma RecordRestores(caps: RingCaps, w: RingRun, pushed: seq<StoredLine>)
    requires Records(caps, w, pushed) && AllPlain(pushed)
    ensures Expand(w.Record()) == pushed && SumRows(w.Record()) == w.ring.totalIngested
  {
    RunsEncode(pushed);
    ExpandPlain(pushed);
    ExpandRows(w.Record());
  }

  /** Nothing pushed is ever lost: expanding the log gives back the pushed lines in order, and
      the rows shown are the lines ingested. */
  lemma RingIsLossless(caps: RingCaps, ops: seq<RingOp>)
    requires AllPlain(Pushed(ops))
    ensures var w := RunRing(caps, ops);
      Expand(w.Record()) == Pushed(ops) && SumRows(w.Record()) == w.ring.totalIngested
  {
    RingRecord(caps, ops);
    RecordRestores(caps, RunRing(caps, ops), Pushed(ops));
  }

  lemma {:induction false} ExpandPlain(ls: seq<StoredLine>)
    requires AllPlain(ls)
    ensures Expand(ls) == ls
  {
    if ls != [] {
      ExpandPlain(ls[..|ls| - 1]);
      assert ls == ls[..|ls| - 1] + [ls[|ls| - 1]];
    }
  }

  /** Repeated lines stay collapsed across evictions and drains on every run exactly when the
      ring has room for at least one line. */
  lemma RingIsCanonicalIff(caps: RingCaps)
    ensures (forall ops | AllPlain(Pushed(ops)) :: Canonical(RunRing(caps, ops).Record())) <==> caps.maxLines >= 1
  {
    if caps.maxLines >= 1 {
      forall ops | AllPlain(Pushed(ops)) ensures Canonical(RunRing(caps, ops).Record()) {
        RingRecord(caps, ops);
        RunsEncode(Pushed(ops));
      }
    } else {
      var ops := NoRoomToCollapse(caps);
      assert !Canonical(RunRing(caps, ops).Record());
    }
  }

  /** A ring without room for a line shows the same empty line twice. */
  lemma NoRoomToCollapse(caps: RingCaps) returns (ops: seq<RingOp>)
    requires caps.maxLines == 0
    ensures AllPlain(Pushed(ops)) && !Canonical(RunRing(caps, ops).Record())
  {
    var line := Text([]);
    ops := [PushLine(line), PushLine(line)];
    assert Pushed(ops) == [line, line] by {
      assert ops[..1] == [PushLine(line)];
      assert Pushed(ops[..1]) == Pushed([]) + [line] by { assert ops[..1][..0] == []; }
    }
    RingRecord(caps, ops);
    assert SameKey([line, line][0], [line, line][0 + 1]);
  }

  // ----- what the byte cap means for the text held -----

  /** The caps, on the text that is held. */
  ghost predicate HoldsWithinCaps(caps: RingCaps, r: RingState) {
    && r.residentBytes == 24 * |r.lines| + |TextHeld(r.lines)| + |NamesHeld(r.lines)|
    && |r.lines| <= caps.maxLines
    && (|r.lines| >= 2 ==> 24 * |r.lines| + |TextHeld(r.lines)| + |NamesHeld(r.lines)| <= caps.maxBytes)
  }

  lemma WithinCapsIff(caps: RingCaps, r: RingState)
    ensures WithinCaps(caps, r) <==> HoldsWithinCaps(caps, r)
  {
    SumBytesIsHeld(r.lines);
  }

  /** Over every run of pushes and drains the byte counter is what the resident entries hold, and two
      or more entries never hold more than the byte cap. */
  lemma RingHoldsWithinCaps(caps: RingCaps, ops: seq<RingOp>)
    ensures HoldsWithinCaps(caps, RunRing(caps, ops).ring)
  {
    RingRecord(caps, ops);
    WithinCapsIff(caps, RunRing(caps, ops).ring);
  }

  lemma PushHolds(caps: RingCaps, r: RingState, line: StoredLine)
    requires HoldsWithinCaps(caps, r)
    ensures HoldsWithinCaps(caps, AfterPush(caps, r, line))
  {
    WithinCapsIff(caps, r);
    PushRecord(caps, r, line);
    WithinCapsIff(caps, AfterPush(caps, r, line));
  }

  lemma EnforcingHolds(caps: RingCaps, r: RingState)
    requires r.residentBytes == BytesHeld(r.lines)
    ensures HoldsWithinCaps(caps, Enforced(caps, r))
  {
    SumBytesIsHeld(r.lines);
    EnforcedKeepsRecord(caps, r);
    WithinCapsIff(caps, Enforced(caps, r));
  }

  /** These entries cannot all stay. */
  predicate Exceeds(caps: RingCaps, lines: seq<StoredLine>) {
    |lines| > caps.maxLines ||
    (|lines| >= 2 && 24 * |lines| + |TextHeld(lines)| + |NamesHeld(lines)| > caps.maxBytes)
  }

  /** A push of a line that does not extend the newest run evicts the `k` oldest entries, where `k` is
      the least number that has to go: what stays does not exceed the caps, and with any more of the
      oldest entries it would. */
  lemma PushEvictsLeast(caps: RingCaps, r: RingState, line: StoredLine) returns (k: nat)
    requires HoldsWithinCaps(caps, r)
    requires r.lines == [] || line.Truncated? || r.lines[|r.lines| - 1].Truncated? ||
      line.text != r.lines[|r.lines| - 1].text
    ensures var all, s := r.lines + [line], AfterPush(caps, r, line);
      && k <= |all| && s.evicted == r.evicted + all[..k] && s.lines == all[k..]
      && s.residentBytes == BytesHeld(all[k..])
      && !Exceeds(caps, all[k..]) && (forall j | 0 <= j < k :: Exceeds(caps, all[j..]))
  {
    var all := r.lines + [line];
    var grown := r.(totalIngested := r.totalIngested + 1, lines := all,
                    residentBytes := r.residentBytes + line.ResidentBytes());
    assert AfterPush(caps, r, line) == Enforced(caps, grown);
    GrownIsAccounted(caps, r, line);
    hide SumBytes, TextHeld, NamesHeld, BytesHeld, Enforced, AfterPush, TooMuch, Exceeds, HoldsWithinCaps, Accounted;
    k := EnforcedIsLeast(caps, grown);
    SumBytesIsHeld(all[k..]);
    forall j | 0 <= j <= k ensures TooMuch(caps, all[j..]) <==> Exceeds(caps, all[j..]) {
      TooMuchIff(caps, all[j..]);
    }
  }

  lemma GrownIsAccounted(caps: RingCaps, r: RingState, line: StoredLine)
    requires HoldsWithinCaps(caps, r)
    ensures Accounted(r.(totalIngested := r.totalIngested + 1, lines := r.lines + [line],
                         residentBytes := r.residentBytes + line.ResidentBytes()))
  {
    WithinCapsIff(caps, r);
    SumBytesAppend(r.lines, [line]);
    assert SumBytes([line]) == line.ResidentBytes();
  }

  lemma TooMuchIff(caps: RingCaps, lines: seq<StoredLine>)
    ensures TooMuch(caps, lines) <==> Exceeds(caps, lines)
  {
    SumBytesIsHeld(lines);
  }

  /** A push of a line with the text of the newest entry evicts nothing and holds no more text. */
  lemma RepeatHoldsNoMore(caps: RingCaps, r: RingState, line: StoredLine)
    requires HoldsWithinCaps(caps, r) && r.lines != []
    requires !line.Truncated? && !r.lines[|r.lines| - 1].Truncated? && line.text == r.lines[|r.lines| - 1].text
    ensures var s := AfterPush(caps, r, line);
      && s.evicted == r.evicted && |s.lines| == |r.lines| && s.residentBytes == r.residentBytes
      && TextHeld(s.lines) == TextHeld(r.lines) && NamesHeld(s.lines) == NamesHeld(r.lines)
      && s.lines[|r.lines| - 1].RenderedRows() == r.lines[|r.lines| - 1].RenderedRows() + 1
  {
    var n := |r.lines| - 1;
    var init, last := r.lines[..n], r.lines[n];
    assert AfterPush(caps, r, line) == r.(totalIngested := r.totalIngested + 1, lines := init + [Extend(last)]);
    assert Extend(last).text == last.text && !Extend(last).Truncated?;
    assert Extend(last).RenderedRows() == last.RenderedRows() + 1;
    hide AfterPush, Extend, TextHeld, NamesHeld, HoldsWithinCaps;
    assert r.lines == init + [last];
    HeldSnoc(init, last);
    HeldSnoc(init, Extend(last));
  }

  // ----- the object -----

  /** The ring as the program updates it in place. */
  class BoundedBuffer {
    const caps: RingCaps
    var lines: seq<StoredLine>
    var residentBytes: nat
    var totalIngested: nat
    var evicted: seq<StoredLine>

    function State(): RingState
      reads this
    {
      RingState(lines, residentBytes, totalIngested, evicted)
    }

    constructor (caps: RingCaps)
      ensures this.caps == caps && State() == EMPTY_RING
    {
      this.caps := caps;
      lines, residentBytes, totalIngested, evicted := [], 0, 0, [];
    }

    method Push(line: StoredLine)
      modifies this
      ensures State() == AfterPush(caps, old(State()), line)
      ensures old(HoldsWithinCaps(caps, State())) ==> HoldsWithinCaps(caps, State())
    {
      hide HoldsWithinCaps, Enforced;
      if HoldsWithinCaps(caps, State()) { PushHolds(caps, State(), line); }
      totalIngested := totalIngested + 1;
      var key := line.CollapseKey();
      if key.Some? && lines != [] {
        var back := |lines| - 1;
        var last := lines[back];
        if last.CollapseKey() == key {
          match last {
            case Text(text) => lines := lines[back := Repeated(text, 2)];
            case Repeated(text, count) => lines := lines[back := Repeated(text, count + 1)];
            case Truncated(_, _, _) => assert false;
          }
          return;
        }
      }
      residentBytes := residentBytes + line.ResidentBytes();
      lines := lines + [line];
      EnforceCaps();
    }

    method EnforceCaps()
      modifies this
      ensures State() == Enforced(caps, old(State()))
      ensures old(residentBytes == BytesHeld(lines)) ==> HoldsWithinCaps(caps, State())
    {
      hide HoldsWithinCaps, BytesHeld;
      if residentBytes == BytesHeld(lines) { EnforcingHolds(caps, State()); }
      while |lines| > caps.maxLines || (residentBytes > caps.maxBytes && |lines| > 1)
        invariant Enforced(caps, State()) == Enforced(caps, old(State()))
        decreases |lines|
      {
        var front := lines[0];
        lines := lines[1..];
        residentBytes := SaturatingSub(residentBytes, front.ResidentBytes());
        evicted := evicted + [front];
      }
    }

    method DrainEvicted() returns (out: seq<StoredLine>)
      modifies this
      ensures out == old(evicted) && State() == old(State()).(evicted := [])
    {
      out := evicted;
      evicted := [];
    }
  }
}
