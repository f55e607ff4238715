/** Output quotas per task (crates/memmux-pty/src/governance.rs). Line counters are unbounded
    here; the byte counter is a `u64` that saturates in the quota test and wraps when added to. */
module Governor {
  import opened Prelude
  import Radix

  datatype GovernanceConfig = GovernanceConfig(
    maxLogArtifactBytes: nat,
    sampleAboveLinesPerSec: nat,
    sampleRatio: nat)

  datatype Decision = Store | SampledOut | QuotaExceeded

  datatype Breach = RateSampling(linesPerSec: nat) | ArtifactQuota(limitBytes: nat)

  datatype Outcome = Outcome(decision: Decision, event: Option<Breach>)

  datatype GovernorState = GovernorState(
    windowStartMs: nat,
    linesThisWindow: nat,
    linesSinceSample: nat,
    artifactBytes: nat,
    rateBreachActive: bool,
    quotaBreached: bool)

  const NEW_GOVERNOR := GovernorState(0, 0, 0, 0, false, false)

  function WrappingAdd(a: nat, b: nat): nat { (a + b) % TWO_TO_THE_64 }

  predicate OpensWindow(g: GovernorState, nowMs: nat) {
    SaturatingSub(nowMs, g.windowStartMs) >= 1000
  }

  /** The state once the rate window has been slid to `nowMs` and the line counted. */
  function Slide(g: GovernorState, nowMs: nat): GovernorState {
    if OpensWindow(g, nowMs)
    then g.(windowStartMs := nowMs, linesThisWindow := 1, rateBreachActive := false)
    else g.(linesThisWindow := g.linesThisWindow + 1)
  }

  predicate OverQuota(cfg: GovernanceConfig, g: GovernorState, bytes: nat) {
    SaturatingAdd(g.artifactBytes, bytes) > cfg.maxLogArtifactBytes
  }

  predicate OverRate(cfg: GovernanceConfig, slid: GovernorState) {
    slid.linesThisWindow > cfg.sampleAboveLinesPerSec
  }

  function Govern(cfg: GovernanceConfig, g: GovernorState, bytes: nat, nowMs: nat): (GovernorState, Outcome) {
    var s := Slide(g, nowMs);
    if OverQuota(cfg, g, bytes) then
      (s.(quotaBreached := true),
       Outcome(QuotaExceeded, if g.quotaBreached then None else Some(ArtifactQuota(cfg.maxLogArtifactBytes))))
    else if OverRate(cfg, s) then
      var sampled := s.(rateBreachActive := true, linesSinceSample := s.linesSinceSample + 1);
      var event := if s.rateBreachActive then None else Some(RateSampling(s.linesThisWindow));
      if sampled.linesSinceSample % Max(cfg.sampleRatio, 1) == 0
      then (sampled.(artifactBytes := WrappingAdd(g.artifactBytes, bytes)), Outcome(Store, event))
      else (sampled, Outcome(SampledOut, event))
    else
      (s.(artifactBytes := WrappingAdd(g.artifactBytes, bytes)), Outcome(Store, None))
  }

  // ----- whole runs -----

  datatype LineIn = LineIn(bytes: nat, nowMs: nat)

  /** The outcome of every line, with what the account of windows needs: which window each line
      fell in, how many windows have been opened, and which lines the quota let through to a
      window that was already full (the over-rate path). */
  datatype GovernorRun = GovernorRun(
    state: GovernorState,
    outcomes: seq<Outcome>,
    windowCount: nat,
    windows: seq<nat>,
    overRate: seq<bool>)

  function StepGovernor(cfg: GovernanceConfig, w: GovernorRun, line: LineIn): GovernorRun {
    var (state, outcome) := Govern(cfg, w.state, line.bytes, line.nowMs);
    var windowCount := w.windowCount + if OpensWindow(w.state, line.nowMs) then 1 else 0;
    var onRatePath := !OverQuota(cfg, w.state, line.bytes) && OverRate(cfg, Slide(w.state, line.nowMs));
    GovernorRun(state, w.outcomes + [outcome], windowCount, w.windows + [windowCount], w.overRate + [onRatePath])
  }

  function RunGovernor(cfg: GovernanceConfig, ins: seq<LineIn>): (w: GovernorRun)
    ensures |w.outcomes| == |w.windows| == |w.overRate| == |ins|
  {
    if ins == [] then GovernorRun(NEW_GOVERNOR, [], 0, [], [])
    else StepGovernor(cfg, RunGovernor(cfg, ins[..|ins| - 1]), ins[|ins| - 1])
  }

  /** The state just before line `i`, and the outcome of line `i`, are those of the prefix. */
  lemma {:induction false} PrefixOutcome(cfg: GovernanceConfig, ins: seq<LineIn>, i: nat)
    requires i < |ins|
    ensures RunGovernor(cfg, ins).outcomes[i]
         == Govern(cfg, RunGovernor(cfg, ins[..i]).state, ins[i].bytes, ins[i].nowMs).1
  {
    var n := |ins| - 1;
    if i < n {
      PrefixOutcome(cfg, ins[..n], i);
      assert ins[..n][..i] == ins[..i];
    }
  }

  /** The bytes of all lines answered `Store`. */
  function StoredBytes(ins: seq<LineIn>, outcomes: seq<Outcome>): nat
    requires |ins| == |outcomes|
  {
    if ins == [] then 0
    else
      var n := |ins| - 1;
      StoredBytes(ins[..n], outcomes[..n]) + if outcomes[n].decision.Store? then ins[n].bytes else 0
  }

  function Refused(outcomes: seq<Outcome>): nat {
    if outcomes == [] then 0
    else Refused(outcomes[..|outcomes| - 1]) + if outcomes[|outcomes| - 1].decision.QuotaExceeded? then 1 else 0
  }

  function QuotaEvents(outcomes: seq<Outcome>): nat {
    if outcomes == [] then 0
    else
      var last := outcomes[|outcomes| - 1].event;
      QuotaEvents(outcomes[..|outcomes| - 1]) + if last.Some? && last.value.ArtifactQuota? then 1 else 0
  }

  /** The byte account: the counter is the total of the stored lines modulo 2^64, which is that
      total exactly as long as it stays under 2^64. With any limit below `u64::MAX` it does, and
      the total never exceeds the limit. */
  lemma {:induction false} ByteAccount(cfg: GovernanceConfig, ins: seq<LineIn>)
    ensures var w := RunGovernor(cfg, ins);
      var total := StoredBytes(ins, w.outcomes);
      && w.state.artifactBytes == total % TWO_TO_THE_64
      && (cfg.maxLogArtifactBytes < U64_MAX ==> total <= cfg.maxLogArtifactBytes)
      && (w.state.artifactBytes == total <==> total < TWO_TO_THE_64)
  {
    StoredWithinLimit(cfg, ins);
  }

  lemma {:induction false} StoredWithinLimit(cfg: GovernanceConfig, ins: seq<LineIn>)
    ensures var w := RunGovernor(cfg, ins);
      && w.state.artifactBytes == StoredBytes(ins, w.outcomes) % TWO_TO_THE_64
      && (cfg.maxLogArtifactBytes < U64_MAX ==> StoredBytes(ins, w.outcomes) <= cfg.maxLogArtifactBytes)
  {
    hide Govern;
    if ins != [] {
      var n := |ins| - 1;
      StoredWithinLimit(cfg, ins[..n]);
      var before := RunGovernor(cfg, ins[..n]);
      ByteStep(cfg, before.state, ins[n], StoredBytes(ins[..n], before.outcomes));
      StoredStep(cfg, ins);
    }
  }

  lemma StoredStep(cfg: GovernanceConfig, ins: seq<LineIn>)
    requires ins != []
    ensures var before, w := RunGovernor(cfg, ins[..|ins| - 1]), RunGovernor(cfg, ins);
      var (s, o) := Govern(cfg, before.state, ins[|ins| - 1].bytes, ins[|ins| - 1].nowMs);
      && w.state == s
      && StoredBytes(ins, w.outcomes) == StoredBytes(ins[..|ins| - 1], before.outcomes) +
           if o.decision.Store? then ins[|ins| - 1].bytes else 0
  {
    hide Govern;
    var n := |ins| - 1;
    assert RunGovernor(cfg, ins).outcomes[..n] == RunGovernor(cfg, ins[..n]).outcomes;
  }

  lemma ByteStep(cfg: GovernanceConfig, g: GovernorState, line: LineIn, total: nat)
    requires g.artifactBytes == total % TWO_TO_THE_64
    requires cfg.maxLogArtifactBytes < U64_MAX ==> total <= cfg.maxLogArtifactBytes
    ensures var (s, o) := Govern(cfg, g, line.bytes, line.nowMs);
      var after := total + if o.decision.Store? then line.bytes else 0;
      && s.artifactBytes == after % TWO_TO_THE_64
      && (cfg.maxLogArtifactBytes < U64_MAX ==> after <= cfg.maxLogArtifactBytes)
  {
    WrapTwice(total, line.bytes);
  }

  lemma WrapTwice(total: nat, bytes: nat)
    ensures WrappingAdd(total % TWO_TO_THE_64, bytes) == (total + bytes) % TWO_TO_THE_64
  {
  }

  /** The quota alarm rings exactly once, at the first refused line, and only then. */
  lemma {:induction false} QuotaAlarmOnce(cfg: GovernanceConfig, ins: seq<LineIn>)
    ensures var w := RunGovernor(cfg, ins);
      && QuotaEvents(w.outcomes) == (if Refused(w.outcomes) > 0 then 1 else 0)
      && w.state.quotaBreached == (Refused(w.outcomes) > 0)
  {
    if ins != [] {
      var n := |ins| - 1;
      QuotaAlarmOnce(cfg, ins[..n]);
      var w := RunGovernor(cfg, ins);
      assert w.outcomes[..n] == RunGovernor(cfg, ins[..n]).outcomes;
    }
  }

  /** Which line is refused: the one that does not fit in what the stored lines left of the
      limit, whatever was refused before it. A limit of `u64::MAX` refuses nothing. */
  lemma {:induction false} RefusedIff(cfg: GovernanceConfig, ins: seq<LineIn>, i: nat)
    requires i < |ins|
    ensures RunGovernor(cfg, ins).outcomes[i].decision.QuotaExceeded?
       <==> cfg.maxLogArtifactBytes < U64_MAX &&
            StoredBytes(ins[..i], RunGovernor(cfg, ins[..i]).outcomes) + ins[i].bytes > cfg.maxLogArtifactBytes
  {
    PrefixOutcome(cfg, ins, i);
    ByteAccount(cfg, ins[..i]);
  }

  lemma {:induction false} StoredGrows(cfg: GovernanceConfig, ins: seq<LineIn>, i: nat, j: nat)
    requires i <= j <= |ins|
    ensures StoredBytes(ins[..i], RunGovernor(cfg, ins[..i]).outcomes)
         <= StoredBytes(ins[..j], RunGovernor(cfg, ins[..j]).outcomes)
  {
    hide RunGovernor, StoredBytes;
    if i < j {
      StoredGrows(cfg, ins, i, j - 1);
      StoredStep(cfg, ins[..j]);
      assert ins[..j][..j - 1] == ins[..j - 1];
    }
  }

  /** How far the quota is a latch: once a line was refused, every later line of at least its size
      is refused too. */
  lemma {:induction false} QuotaLatchesAtSize(cfg: GovernanceConfig, ins: seq<LineIn>, i: nat, j: nat)
    requires i < j < |ins| && RunGovernor(cfg, ins).outcomes[i].decision.QuotaExceeded?
    requires ins[j].bytes >= ins[i].bytes
    ensures RunGovernor(cfg, ins).outcomes[j].decision.QuotaExceeded?
  {
    hide StoredBytes;
    RefusedIff(cfg, ins, i);
    RefusedIff(cfg, ins, j);
    StoredGrows(cfg, ins, i, j);
  }

  /** The source comment says that nothing more is persisted once the quota is exhausted. The
      quota is not such a latch: a line that still fits is stored after a refusal. */
  lemma QuotaIsNotALatch()
    ensures var cfg := GovernanceConfig(10, 5, 1);
      var w := RunGovernor(cfg, [LineIn(20, 0), LineIn(1, 0)]);
      w.outcomes == [Outcome(QuotaExceeded, Some(ArtifactQuota(10))), Outcome(Store, None)]
  {
    var ins := [LineIn(20, 0), LineIn(1, 0)];
    assert ins[..1] == [LineIn(20, 0)] && [LineIn(20, 0)][..0] == [];
  }

  // ----- the rate path -----

  predicate IsRateEvent(o: Outcome) { o.event.Some? && o.event.value.RateSampling? }

  function CountTrue(bs: seq<bool>): nat {
    if bs == [] then 0 else CountTrue(bs[..|bs| - 1]) + if bs[|bs| - 1] then 1 else 0
  }

  /** Of the lines marked in `path`, those answered `Store`. */
  function StoredOnPath(path: seq<bool>, outcomes: seq<Outcome>): nat
    requires |path| == |outcomes|
  {
    if path == [] then 0
    else
      var n := |path| - 1;
      StoredOnPath(path[..n], outcomes[..n]) + if path[n] && outcomes[n].decision.Store? then 1 else 0
  }

  /** Sampling keeps one line in `ratio`: of the k lines of the over-rate path, over all windows
      together, exactly floor(k / ratio) are stored. */
  lemma {:induction false} SamplingIsExact(cfg: GovernanceConfig, ins: seq<LineIn>)
    ensures var w := RunGovernor(cfg, ins);
      && w.state.linesSinceSample == CountTrue(w.overRate)
      && StoredOnPath(w.overRate, w.outcomes) == CountTrue(w.overRate) / Max(cfg.sampleRatio, 1)
  {
    var w := RunGovernor(cfg, ins);
    var ratio := Max(cfg.sampleRatio, 1);
    if ins == [] {
      Radix.ModUnique(0, ratio, 0, 0);
    } else {
      var n := |ins| - 1;
      SamplingIsExact(cfg, ins[..n]);
      var before := RunGovernor(cfg, ins[..n]);
      assert w.overRate[..n] == before.overRate && w.outcomes[..n] == before.outcomes;
      Radix.NextQuotient(CountTrue(before.overRate), ratio);
    }
  }

  /** A rate event of line `i` lies in window `window`. */
  predicate EventIn(w: GovernorRun, i: nat, window: nat) {
    i < |w.outcomes| && i < |w.windows| && IsRateEvent(w.outcomes[i]) && w.windows[i] == window
  }

  /** The rate flag says whether the open window has raised its event; no two events share a
      window; a window in which a line took the over-rate path has raised one by then. */
  ghost predicate WindowAccount(w: GovernorRun)
    requires |w.outcomes| == |w.windows| == |w.overRate|
  {
    && (forall i :: 0 <= i < |w.windows| ==> w.windows[i] <= w.windowCount)
    && (w.state.rateBreachActive <==> exists i: nat :: EventIn(w, i, w.windowCount))
    && (forall i, j :: 0 <= i < j < |w.windows| && IsRateEvent(w.outcomes[i]) && IsRateEvent(w.outcomes[j]) ==>
          w.windows[i] < w.windows[j])
    && (forall j :: 0 <= j < |w.windows| && w.overRate[j] ==> exists i: nat :: i <= j && EventIn(w, i, w.windows[j]))
  }

  /** How one line moves the rate flag and whether it raises a rate event. */
  ghost predicate RateStepped(w: GovernorRun, v: GovernorRun) {
    var n := |w.outcomes|;
    && n == |w.windows| == |w.overRate| && n + 1 == |v.outcomes| == |v.windows| == |v.overRate|
    && v.outcomes[..n] == w.outcomes && v.windows[..n] == w.windows && v.overRate[..n] == w.overRate
    && w.windowCount <= v.windowCount == v.windows[n]
    && var standing := w.state.rateBreachActive && v.windowCount == w.windowCount;
    && v.state.rateBreachActive == (v.overRate[n] || standing)
    && IsRateEvent(v.outcomes[n]) == (v.overRate[n] && !standing)
  }

  lemma RateStep(cfg: GovernanceConfig, w: GovernorRun, line: LineIn)
    requires |w.outcomes| == |w.windows| == |w.overRate|
    ensures RateStepped(w, StepGovernor(cfg, w, line))
  {
  }

  lemma EventStays(w: GovernorRun, v: GovernorRun, i: nat, window: nat)
    requires RateStepped(w, v) && i < |w.outcomes|
    ensures EventIn(v, i, window) == EventIn(w, i, window)
    ensures v.windows[i] == w.windows[i] && v.overRate[i] == w.overRate[i] && v.outcomes[i] == w.outcomes[i]
  {
    assert v.outcomes[..|w.outcomes|][i] == v.outcomes[i] && v.windows[..|w.outcomes|][i] == v.windows[i];
    assert v.overRate[..|w.outcomes|][i] == v.overRate[i];
  }

  lemma FlagTellsEvent(w: GovernorRun, v: GovernorRun)
    requires RateStepped(w, v) && WindowAccount(w)
    ensures v.state.rateBreachActive <==> exists i: nat :: EventIn(v, i, v.windowCount)
  {
    var n := |w.outcomes|;
    if i: nat :| EventIn(w, i, w.windowCount) { EventStays(w, v, i, w.windowCount); }
    if IsRateEvent(v.outcomes[n]) { assert EventIn(v, n, v.windowCount); }
    if i: nat :| EventIn(v, i, v.windowCount) {
      if i < n {
        EventStays(w, v, i, v.windowCount);
        assert w.windows[i] <= w.windowCount;
      }
    }
  }

  lemma EventsStayApart(w: GovernorRun, v: GovernorRun, i: nat, j: nat)
    requires RateStepped(w, v) && WindowAccount(w)
    requires i < j < |v.windows| && IsRateEvent(v.outcomes[i]) && IsRateEvent(v.outcomes[j])
    ensures v.windows[i] < v.windows[j]
  {
    EventStays(w, v, i, v.windows[i]);
    assert EventIn(w, i, w.windows[i]) && w.windows[i] <= w.windowCount;
    if j < |w.outcomes| { EventStays(w, v, j, v.windows[j]); }
  }

  lemma OverRateHasEvent(w: GovernorRun, v: GovernorRun, j: nat)
    requires RateStepped(w, v) && WindowAccount(w) && j < |v.windows| && v.overRate[j]
    ensures exists i: nat :: i <= j && EventIn(v, i, v.windows[j])
  {
    var n := |w.outcomes|;
    if j < n {
      EventStays(w, v, j, v.windows[j]);
      var i: nat :| i <= j && EventIn(w, i, w.windows[j]);
      EventStays(w, v, i, v.windows[j]);
    } else {
      FlagTellsEvent(w, v);
    }
  }

  lemma StepKeepsWindowAccount(cfg: GovernanceConfig, w: GovernorRun, line: LineIn)
    requires |w.outcomes| == |w.windows| == |w.overRate| && WindowAccount(w)
    ensures WindowAccount(StepGovernor(cfg, w, line))
  {
    hide StepGovernor, EventIn, IsRateEvent;
    var v := StepGovernor(cfg, w, line);
    RateStep(cfg, w, line);
    FlagTellsEvent(w, v);
    forall i | 0 <= i < |w.windows| ensures v.windows[i] <= v.windowCount {
      EventStays(w, v, i, 0);
    }
    forall i: nat, j: nat | i < j < |v.windows| && IsRateEvent(v.outcomes[i]) && IsRateEvent(v.outcomes[j])
      ensures v.windows[i] < v.windows[j]
    {
      EventsStayApart(w, v, i, j);
    }
    forall j: nat | j < |v.windows| && v.overRate[j] ensures exists i: nat :: i <= j && EventIn(v, i, v.windows[j]) {
      OverRateHasEvent(w, v, j);
    }
  }

  /** At most one rate event per window, and one in every window with an over-rate line. */
  lemma {:induction false} RateAlarmOncePerWindow(cfg: GovernanceConfig, ins: seq<LineIn>)
    ensures WindowAccount(RunGovernor(cfg, ins))
  {
    if ins != [] {
      RateAlarmOncePerWindow(cfg, ins[..|ins| - 1]);
      StepKeepsWindowAccount(cfg, RunGovernor(cfg, ins[..|ins| - 1]), ins[|ins| - 1]);
    }
  }

  // ----- the object -----

  class OutputGovernor {
    const cfg: GovernanceConfig
    var windowStartMs: nat
    var linesThisWindow: nat
    var linesSinceSample: nat
    var artifactBytes: nat
    var rateBreachActive: bool
    var quotaBreached: bool

    function State(): GovernorState
      reads this
    {
      GovernorState(windowStartMs, linesThisWindow, linesSinceSample, artifactBytes, rateBreachActive, quotaBreached)
    }

    constructor (cfg: GovernanceConfig)
      ensures this.cfg == cfg && State() == NEW_GOVERNOR
    {
      this.cfg := cfg;
      windowStartMs, linesThisWindow, linesSinceSample, artifactBytes := 0, 0, 0, 0;
      rateBreachActive, quotaBreached := false, false;
    }

    method OnLine(bytes: nat, nowMs: nat) returns (outcome: Outcome)
      modifies this
      ensures (State(), outcome) == Govern(cfg, old(State()), bytes, nowMs)
    {
      if SaturatingSub(nowMs, windowStartMs) >= 1000 {
        windowStartMs := nowMs;
        linesThisWindow := 0;
        rateBreachActive := false;
      }
      linesThisWindow := linesThisWindow + 1;

      if SaturatingAdd(artifactBytes, bytes) > cfg.maxLogArtifactBytes {
        var event: Option<Breach> := None;
        if !quotaBreached {
          quotaBreached := true;
          event := Some(ArtifactQuota(cfg.maxLogArtifactBytes));
        }
        return Outcome(QuotaExceeded, event);
      }

      var overRate := linesThisWindow > cfg.sampleAboveLinesPerSec;
      if overRate {
        var event: Option<Breach> := None;
        if !rateBreachActive {
          rateBreachActive := true;
          event := Some(RateSampling(linesThisWindow));
        }
        linesSinceSample := linesSinceSample + 1;
        var ratio := Max(cfg.sampleRatio, 1);
        if linesSinceSample % ratio == 0 {
          artifactBytes := WrappingAdd(artifactBytes, bytes);
          return Outcome(Store, event);
        }
        return Outcome(SampledOut, event);
      }

      artifactBytes := WrappingAdd(artifactBytes, bytes);
      outcome := Outcome(Store, None);
    }
  }
}
