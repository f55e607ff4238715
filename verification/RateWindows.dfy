/** The verdict on every line of a run, counted from the lines alone
    (crates/memmux-pty/src/governance.rs, `on_line`). */
module RateWindows {
  import opened Governor
  import opened Prelude

  /** When the rate window of the last line began: with that line, if it comes a second or more after the
      window before it began; the first window begins at time zero. */
  function WindowStart(ins: seq<LineIn>): nat {
    if ins == [] then 0
    else
      var before, now := WindowStart(ins[..|ins| - 1]), ins[|ins| - 1].nowMs;
      if now >= before + 1000 then now else before
  }

  /** How many lines fell in the window that began at `start`. */
  function LinesIn(ins: seq<LineIn>, start: nat): nat {
    if ins == [] then 0
    else LinesIn(ins[..|ins| - 1], start) + if WindowStart(ins) == start then 1 else 0
  }

  /** The last line was not refused for its size, but its window already had all the lines it may have. */
  predicate Crowded(cfg: GovernanceConfig, ins: seq<LineIn>)
    requires ins != []
  {
    && !RunGovernor(cfg, ins).outcomes[|ins| - 1].decision.QuotaExceeded?
    && LinesIn(ins, WindowStart(ins)) > cfg.sampleAboveLinesPerSec
  }

  /** How many lines found their window full. */
  function CrowdedLines(cfg: GovernanceConfig, ins: seq<LineIn>): nat {
    if ins == [] then 0
    else CrowdedLines(cfg, ins[..|ins| - 1]) + if Crowded(cfg, ins) then 1 else 0
  }

  /** Some line found the window that began at `start` full. */
  predicate Overflowed(cfg: GovernanceConfig, ins: seq<LineIn>, start: nat) {
    ins != [] && ((Crowded(cfg, ins) && WindowStart(ins) == start) || Overflowed(cfg, ins[..|ins| - 1], start))
  }

  /** The last line fits in what the stored lines left of the byte limit. */
  predicate Fits(cfg: GovernanceConfig, ins: seq<LineIn>)
    requires ins != []
  {
    var n := |ins| - 1;
    cfg.maxLogArtifactBytes >= U64_MAX ||
    StoredBytes(ins[..n], RunGovernor(cfg, ins[..n]).outcomes) + ins[n].bytes <= cfg.maxLogArtifactBytes
  }

  lemma {:induction false} NoLineYet(cfg: GovernanceConfig, ins: seq<LineIn>, start: nat)
    requires start > WindowStart(ins)
    ensures LinesIn(ins, start) == 0 && !Overflowed(cfg, ins, start)
  {
    if ins != [] { NoLineYet(cfg, ins[..|ins| - 1], start); }
  }

  lemma SameRate(cfg: GovernanceConfig, g: GovernorState, bytes: nat, nowMs: nat)
    ensures var (s, o) := Govern(cfg, g, bytes, nowMs);
      var opens := nowMs >= g.windowStartMs + 1000;
      var lines := if opens then 1 else g.linesThisWindow + 1;
      var alarmed := !opens && g.rateBreachActive;
      var crowded := !o.decision.QuotaExceeded? && lines > cfg.sampleAboveLinesPerSec;
      && s.windowStartMs == (if opens then nowMs else g.windowStartMs)
      && s.linesThisWindow == lines
      && s.linesSinceSample == g.linesSinceSample + (if crowded then 1 else 0)
      && s.rateBreachActive == (alarmed || crowded)
      && (!o.decision.QuotaExceeded? ==> o == if lines <= cfg.sampleAboveLinesPerSec then Outcome(Store, None) else
            Outcome(if s.linesSinceSample % Max(cfg.sampleRatio, 1) == 0 then Store else SampledOut,
                    if alarmed then None else Some(RateSampling(lines))))
      && (o.decision.QuotaExceeded? ==>
            o.event == if g.quotaBreached then None else Some(ArtifactQuota(cfg.maxLogArtifactBytes)))
  {
  }

  /** The counters of the governor are those counts. */
  lemma {:induction false} CountersAre(cfg: GovernanceConfig, ins: seq<LineIn>)
    ensures var g := RunGovernor(cfg, ins).state;
      && g.windowStartMs == WindowStart(ins)
      && g.linesThisWindow == LinesIn(ins, WindowStart(ins))
      && g.linesSinceSample == CrowdedLines(cfg, ins)
      && g.rateBreachActive == Overflowed(cfg, ins, WindowStart(ins))
  {
    hide Govern;
    if ins != [] {
      var n := |ins| - 1;
      CountersAre(cfg, ins[..n]);
      SameRate(cfg, RunGovernor(cfg, ins[..n]).state, ins[n].bytes, ins[n].nowMs);
      if WindowStart(ins) != WindowStart(ins[..n]) { NoLineYet(cfg, ins[..n], WindowStart(ins)); }
    }
  }

  /** The verdict on the last line. A line that does not fit is refused, with an alarm the first time. A
      line that is not one too many for its window is stored. Of the others every `ratio`th is stored,
      and the first one in each window raises an alarm that says how many lines the window has had. */
  lemma {:induction false} Verdict(cfg: GovernanceConfig, ins: seq<LineIn>)
    requires ins != []
    ensures var n := |ins| - 1;
      var lines := LinesIn(ins, WindowStart(ins));
      RunGovernor(cfg, ins).outcomes[n] ==
        if !Fits(cfg, ins) then
          Outcome(QuotaExceeded, if Refused(RunGovernor(cfg, ins[..n]).outcomes) > 0 then None
                                 else Some(ArtifactQuota(cfg.maxLogArtifactBytes)))
        else if lines <= cfg.sampleAboveLinesPerSec then Outcome(Store, None)
        else Outcome(if CrowdedLines(cfg, ins) % Max(cfg.sampleRatio, 1) == 0 then Store else SampledOut,
                     if Overflowed(cfg, ins[..n], WindowStart(ins)) then None else Some(RateSampling(lines)))
  {
    hide Govern;
    var n := |ins| - 1;
    var before := RunGovernor(cfg, ins[..n]);
    CountersAre(cfg, ins[..n]);
    CountersAre(cfg, ins);
    QuotaAlarmOnce(cfg, ins[..n]);
    RefusedIff(cfg, ins, n);
    SameRate(cfg, before.state, ins[n].bytes, ins[n].nowMs);
    if WindowStart(ins) != WindowStart(ins[..n]) { NoLineYet(cfg, ins[..n], WindowStart(ins)); }
  }

  /** And so on every line of a run, as what comes later does not matter. */
  lemma VerdictStays(cfg: GovernanceConfig, ins: seq<LineIn>, i: nat)
    requires i < |ins|
    ensures RunGovernor(cfg, ins).outcomes[i] == RunGovernor(cfg, ins[..i + 1]).outcomes[i]
  {
    PrefixOutcome(cfg, ins, i);
    PrefixOutcome(cfg, ins[..i + 1], i);
    assert ins[..i + 1][..i] == ins[..i];
  }
}
