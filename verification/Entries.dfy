/** What each entry of a capture log says about its line, and what the log may hold in memory
    (crates/memmux-pty/src/capture.rs). */
module Entries {
  import opened Capture
  import Governor
  import opened Line
  import opened Prelude
  import opened Ring
  import Radix
  import Truncate
  import Utf8

  /** The lines of a run that the governor answered `Store`. */
  function StoredBy(cfg: CaptureConfig, ops: seq<CaptureOp>): seq<Bytes> {
    Stored(cfg.governance, InputOf(cfg.maxLineBytes, ops).lines)
  }

  /** Over any run, entry by entry: a stored line that fits the cap is kept whole, a longer one is cut,
      with its length and with the longest head within the cap that ends between two characters. */
  lemma EntriesTellLines(cfg: CaptureConfig, ops: seq<CaptureOp>, i: nat)
    requires i < |StoredBy(cfg, ops)|
    ensures var entries := Expand(RunCapture(cfg, ops).Record());
      var line, cap := StoredBy(cfg, ops)[i], cfg.maxLineBytes;
      && |entries| == |StoredBy(cfg, ops)|
      && (|line| <= cap ==> entries[i] == Text(line))
      && (|line| > cap ==>
            && entries[i].Truncated? && entries[i].fullBytes == |line|
            && entries[i].head <= line && |entries[i].head| <= Max(cap, 1)
            && Truncate.IsCharBoundary(line, |entries[i].head|)
            && forall j | |entries[i].head| < j <= Max(cap, 1) :: !Truncate.IsCharBoundary(line, j))
  {
    var stored := LogIsEncoded(cfg, ops);
    hide Encode, Encoded, ArtifactsOf, Truncate.IsCharBoundary;
    EncodedAt(stored, cfg.maxLineBytes, i);
    EncodeKeepsMost(stored[i], cfg.maxLineBytes, |ArtifactsOf(stored[..i], cfg.maxLineBytes)|);
  }

  /** And for UTF-8 text, whatever its characters: the head is the longest run of leading characters
      that takes at most `cap` bytes, no more than three bytes short of it. */
  lemma CutTextIsLongest(cfg: CaptureConfig, ops: seq<CaptureOp>, i: nat, text: seq<Utf8.Scalar>) returns (k: nat)
    requires i < |StoredBy(cfg, ops)| && StoredBy(cfg, ops)[i] == Utf8.Encode(text)
    requires |Utf8.Encode(text)| > cfg.maxLineBytes
    ensures var entries := Expand(RunCapture(cfg, ops).Record());
      && |entries| == |StoredBy(cfg, ops)| && entries[i].Truncated?
      && Utf8.IsLongestWithin(text, k, Max(cfg.maxLineBytes, 1)) && entries[i].head == Utf8.Encode(text[..k])
      && Max(cfg.maxLineBytes, 1) - 3 <= |entries[i].head|
  {
    EntriesTellLines(cfg, ops, i);
    hide RunCapture, Expand, StoredBy, Utf8.Encode, Utf8.IsLongestWithin;
    k := Utf8.LongestIs(text, Expand(RunCapture(cfg, ops).Record())[i].head, Max(cfg.maxLineBytes, 1));
  }

  /** Over any run the artifacts are numbered in the order in which their lines were stored. */
  lemma ArtifactsAreNumbered(cfg: CaptureConfig, ops: seq<CaptureOp>, k: nat)
    requires k < |RunCapture(cfg, ops).AllArtifacts()|
    ensures RunCapture(cfg, ops).AllArtifacts()[k].artifactRef == "art_" + Radix.Show(k, 10)
    ensures |RunCapture(cfg, ops).AllArtifacts()[k].content| > cfg.maxLineBytes
  {
    var stored := LogIsEncoded(cfg, ops);
    ArtifactNames(stored, cfg.maxLineBytes);
    ArtifactsAreLong(stored, cfg.maxLineBytes);
  }

  lemma {:induction false} ArtifactsAreLong(stored: seq<Bytes>, cap: nat)
    ensures forall k :: 0 <= k < |ArtifactsOf(stored, cap)| ==> |ArtifactsOf(stored, cap)[k].content| > cap
  {
    if stored != [] { ArtifactsAreLong(stored[..|stored| - 1], cap); }
  }

  /** However much output a run feeds in, what the ring keeps of it stays within the caps: the byte
      counter is the length of the text and names held plus 24 for each entry. */
  lemma CaptureHoldsWithinCaps(cfg: CaptureConfig, ops: seq<CaptureOp>)
    ensures HoldsWithinCaps(cfg.ring, RunCapture(cfg, ops).buf.ring)
  {
    CaptureExplained(cfg, ops);
    WithinCapsIff(cfg.ring, RunCapture(cfg, ops).buf.ring);
  }

  // ----- events -----

  /** How many of the lines raised an alarm. */
  function Raised(outcomes: seq<Governor.Outcome>): nat {
    if outcomes == [] then 0
    else Raised(outcomes[..|outcomes| - 1]) + if outcomes[|outcomes| - 1].event.Some? then 1 else 0
  }

  lemma {:induction false} EventsInPlace(outcomes: seq<Governor.Outcome>, i: nat)
    ensures |EventsOf(outcomes)| == Raised(outcomes)
    ensures i < |outcomes| ==> Raised(outcomes[..i]) <= Raised(outcomes)
    ensures i < |outcomes| && outcomes[i].event.Some? ==>
      Raised(outcomes[..i]) < Raised(outcomes) && EventsOf(outcomes)[Raised(outcomes[..i])] == outcomes[i].event.value
  {
    if outcomes != [] {
      var n := |outcomes| - 1;
      EventsInPlace(outcomes[..n], i);
      if i < n { assert outcomes[..n][..i] == outcomes[..i]; }
    }
  }

  /** Over any run no alarm of the governor is lost: the events handed out and still waiting are those
      that the lines raised, one for each such line, in order. */
  lemma AlarmsAreKept(cfg: CaptureConfig, ops: seq<CaptureOp>, i: nat)
    ensures var outcomes := Governor.RunGovernor(cfg.governance, Sizes(InputOf(cfg.maxLineBytes, ops).lines)).outcomes;
      var events := RunCapture(cfg, ops).AllEvents();
      && |events| == Raised(outcomes)
      && (i < |outcomes| && outcomes[i].event.Some? ==>
            Raised(outcomes[..i]) < |events| && events[Raised(outcomes[..i])] == outcomes[i].event.value)
  {
    CaptureExplained(cfg, ops);
    EventsInPlace(Governor.RunGovernor(cfg.governance, Sizes(InputOf(cfg.maxLineBytes, ops).lines)).outcomes, i);
  }
}
