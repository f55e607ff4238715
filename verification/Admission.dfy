/** The admission planner (crates/memmux-sched/src/score.rs, `plan_admission`): rank the candidates,
    then admit greedily. Scores are reals; NaN is not part of this model. */
module Admission {
  import opened Lexicographic
  import Radix

  datatype Candidate = Candidate(taskId: string, score: real, peak: nat)

  datatype Deferral = Deferral(taskId: string, reason: string)

  datatype Plan = Plan(admitted: seq<string>, deferred: seq<Deferral>)

  const MIB: nat := 1024 * 1024

  // ----- the ranking -----

  /** Higher score first, then the smaller id. */
  predicate Outranks(a: Candidate, b: Candidate) {
    a.score > b.score || (a.score == b.score && Before(a.taskId, b.taskId))
  }

  ghost predicate DistinctIds(cs: seq<Candidate>) {
    forall i, j :: 0 <= i < |cs| && 0 <= j < |cs| && cs[i].taskId == cs[j].taskId ==> i == j
  }

  ghost predicate Ranked(cs: seq<Candidate>) {
    forall i, j :: 0 <= i < j < |cs| ==> Outranks(cs[i], cs[j])
  }

  /** `sort_by`, a stable sort: a candidate goes behind everything it does not outrank. */
  function Place(cs: seq<Candidate>, c: Candidate): seq<Candidate> {
    if cs == [] then [c]
    else if Outranks(c, cs[|cs| - 1]) then Place(cs[..|cs| - 1], c) + [cs[|cs| - 1]]
    else cs + [c]
  }

  function Rank(cs: seq<Candidate>): seq<Candidate> {
    if cs == [] then [] else Place(Rank(cs[..|cs| - 1]), cs[|cs| - 1])
  }

  lemma {:induction false} PlaceIsPermutation(cs: seq<Candidate>, c: Candidate)
    ensures multiset(Place(cs, c)) == multiset(cs) + multiset{c}
  {
    if cs != [] && Outranks(c, cs[|cs| - 1]) {
      var n := |cs| - 1;
      PlaceIsPermutation(cs[..n], c);
      assert cs == cs[..n] + [cs[n]];
    }
  }

  lemma {:induction false} RankIsPermutation(cs: seq<Candidate>)
    ensures multiset(Rank(cs)) == multiset(cs)
  {
    hide Place;
    if cs != [] {
      var n := |cs| - 1;
      assert Rank(cs) == Place(Rank(cs[..n]), cs[n]);
      hide Rank;
      RankIsPermutation(cs[..n]);
      PlaceIsPermutation(Rank(cs[..n]), cs[n]);
      assert cs == cs[..n] + [cs[n]];
    }
  }

  lemma OutranksTransitive(a: Candidate, b: Candidate, c: Candidate)
    requires Outranks(a, b) && Outranks(b, c)
    ensures Outranks(a, c)
  {
    if a.score == b.score == c.score { OrderTransitive(a.taskId, b.taskId, c.taskId); }
  }

  lemma {:induction false} PlaceRanked(cs: seq<Candidate>, c: Candidate)
    requires Ranked(cs) && forall x :: x in cs ==> x.taskId != c.taskId
    ensures Ranked(Place(cs, c))
  {
    if cs != [] {
      var n := |cs| - 1;
      var init, last := cs[..n], cs[n];
      if Outranks(c, last) {
        PlaceRanked(init, c);
        PlaceIsPermutation(init, c);
        var placed := Place(init, c);
        forall i | 0 <= i < |placed| ensures Outranks(placed[i], last) {
          assert placed[i] in multiset(placed);
          if placed[i] != c {
            assert placed[i] in multiset(init);
          }
        }
      } else {
        forall i | 0 <= i < |cs| ensures Outranks(cs[i], c) {
          OrderTotal(last.taskId, c.taskId);
          assert last in cs;
          if i < n { OutranksTransitive(cs[i], last, c); }
        }
      }
    }
  }

  lemma {:induction false} RankRanked(cs: seq<Candidate>)
    requires DistinctIds(cs)
    ensures Ranked(Rank(cs))
  {
    if cs != [] {
      var n := |cs| - 1;
      assert forall i :: 0 <= i < n ==> cs[..n][i] == cs[i];
      RankRanked(cs[..n]);
      RankIsPermutation(cs[..n]);
      forall x | x in Rank(cs[..n]) ensures x.taskId != cs[n].taskId {
        assert x in multiset(cs[..n]);
        assert x in cs[..n];
      }
      PlaceRanked(Rank(cs[..n]), cs[n]);
    }
  }

  /** There is only one way to rank. */
  lemma {:induction false} RankingIsUnique(a: seq<Candidate>, b: seq<Candidate>)
    requires Ranked(a) && Ranked(b) && multiset(a) == multiset(b)
    ensures a == b
  {
    hide Outranks, Ranked;
    if a == [] {
      assert |multiset(b)| == 0;
    } else {
      assert a[0] in multiset(b) && |multiset(b)| > 0;
      assert b[0] in multiset(a);
      if a[0] != b[0] {
        FirstOutranks(a, b[0]);
        FirstOutranks(b, a[0]);
        Asymmetric(a[0], b[0]);
      }
      assert a == [a[0]] + a[1..] && b == [b[0]] + b[1..];
      RankedRest(a);
      RankedRest(b);
      SameRest(a, b);
      RankingIsUnique(a[1..], b[1..]);
    }
  }

  lemma RankedRest(a: seq<Candidate>)
    requires Ranked(a) && a != []
    ensures Ranked(a[1..])
  {
  }

  lemma SameRest(a: seq<Candidate>, b: seq<Candidate>)
    requires a != [] && b != [] && a[0] == b[0] && multiset(a) == multiset(b)
    ensures multiset(a[1..]) == multiset(b[1..])
  {
    assert a == [a[0]] + a[1..] && b == [b[0]] + b[1..];
    assert multiset(a[1..]) == multiset(a) - multiset{a[0]};
    assert multiset(b[1..]) == multiset(b) - multiset{b[0]};
  }

  lemma FirstOutranks(a: seq<Candidate>, c: Candidate)
    requires Ranked(a) && c in a && a[0] != c
    ensures Outranks(a[0], c)
  {
    var i :| 0 <= i < |a| && a[i] == c;
  }

  lemma Asymmetric(a: Candidate, b: Candidate)
    ensures !(Outranks(a, b) && Outranks(b, a))
  {
    OrderTotal(a.taskId, b.taskId);
  }

  // ----- the greedy fill -----

  function Reason(peak: nat, remaining: nat): string {
    "insufficient headroom: needs " + Radix.Show(peak / MIB, 10) + " MiB, " +
    Radix.Show(remaining / MIB, 10) + " MiB free"
  }

  /** What is left, and the plan, after considering candidates in order. */
  datatype Fill = Fill(remaining: nat, plan: Plan)

  function Consider(f: Fill, c: Candidate): Fill {
    if c.peak <= f.remaining
    then Fill(f.remaining - c.peak, f.plan.(admitted := f.plan.admitted + [c.taskId]))
    else f.(plan := f.plan.(deferred := f.plan.deferred + [Deferral(c.taskId, Reason(c.peak, f.remaining))]))
  }

  function FillUp(ranked: seq<Candidate>, available: nat): Fill {
    if ranked == [] then Fill(available, Plan([], []))
    else Consider(FillUp(ranked[..|ranked| - 1], available), ranked[|ranked| - 1])
  }

  function PlanOf(cs: seq<Candidate>, available: nat): Plan { FillUp(Rank(cs), available).plan }

  method PlanAdmission(candidates: seq<Candidate>, availableBytes: nat) returns (plan: Plan)
    ensures plan == PlanOf(candidates, availableBytes)
  {
    var ranked := Rank(candidates);
    var remaining: nat := availableBytes;
    plan := Plan([], []);
    for i := 0 to |ranked|
      invariant Fill(remaining, plan) == FillUp(ranked[..i], availableBytes)
    {
      assert ranked[..i + 1][..i] == ranked[..i];
      var c := ranked[i];
      if c.peak <= remaining {
        remaining := remaining - c.peak;
        plan := plan.(admitted := plan.admitted + [c.taskId]);
      } else {
        plan := plan.(deferred := plan.deferred + [Deferral(c.taskId, Reason(c.peak, remaining))]);
      }
    }
    assert ranked[..|ranked|] == ranked;
  }

  // ----- what the plan promises -----

  /** The order in which candidates arrive does not matter. */
  lemma PlanIgnoresOrder(a: seq<Candidate>, b: seq<Candidate>, available: nat)
    requires DistinctIds(a) && DistinctIds(b) && multiset(a) == multiset(b)
    ensures PlanOf(a, available) == PlanOf(b, available)
  {
    RankRanked(a);
    RankRanked(b);
    RankIsPermutation(a);
    RankIsPermutation(b);
    RankingIsUnique(Rank(a), Rank(b));
  }

  function DeferredIds(ds: seq<Deferral>): seq<string> {
    seq(|ds|, i requires 0 <= i < |ds| => ds[i].taskId)
  }

  function Ids(cs: seq<Candidate>): seq<string> {
    seq(|cs|, i requires 0 <= i < |cs| => cs[i].taskId)
  }

  /** The peaks of the candidates that were admitted. */
  function AdmittedPeaks(ranked: seq<Candidate>, available: nat): nat {
    if ranked == [] then 0
    else
      var n := |ranked| - 1;
      AdmittedPeaks(ranked[..n], available) +
      if ranked[n].peak <= FillUp(ranked[..n], available).remaining then ranked[n].peak else 0
  }

  /** Every candidate is either admitted or deferred, and the admitted peaks and the remainder
      make up the available bytes. */
  lemma {:induction false} FillPartitions(ranked: seq<Candidate>, available: nat)
    ensures var f := FillUp(ranked, available);
      && multiset(f.plan.admitted) + multiset(DeferredIds(f.plan.deferred)) == multiset(Ids(ranked))
      && AdmittedPeaks(ranked, available) + f.remaining == available
  {
    if ranked != [] {
      var n := |ranked| - 1;
      FillPartitions(ranked[..n], available);
      var f, g := FillUp(ranked[..n], available), FillUp(ranked, available);
      assert Ids(ranked) == Ids(ranked[..n]) + [ranked[n].taskId];
      if ranked[n].peak > f.remaining {
        assert DeferredIds(g.plan.deferred) == DeferredIds(f.plan.deferred) + [ranked[n].taskId];
      }
    }
  }

  lemma {:induction false} RemainingShrinks(ranked: seq<Candidate>, available: nat, k: nat)
    requires k <= |ranked|
    ensures FillUp(ranked, available).remaining <= FillUp(ranked[..k], available).remaining
    ensures FillUp(ranked[..k], available).plan.admitted <= FillUp(ranked, available).plan.admitted
    ensures FillUp(ranked[..k], available).plan.deferred <= FillUp(ranked, available).plan.deferred
    decreases |ranked|
  {
    if k == |ranked| {
      assert ranked[..k] == ranked;
    } else {
      var n := |ranked| - 1;
      RemainingShrinks(ranked[..n], available, k);
      assert ranked[..n][..k] == ranked[..k];
    }
  }

  /** Who gets in: a candidate is admitted exactly when its peak fits in what the admitted ones
      ranked before it leave, and the deferral says what it needs and what was free. */
  lemma AdmittedIff(ranked: seq<Candidate>, available: nat, k: nat)
    requires k < |ranked| && DistinctIds(ranked)
    ensures var plan := FillUp(ranked, available).plan;
      var free := available - AdmittedPeaks(ranked[..k], available);
      && 0 <= free
      && (ranked[k].taskId in plan.admitted <==> ranked[k].peak <= free)
      && (ranked[k].peak > free ==> Deferral(ranked[k].taskId, Reason(ranked[k].peak, free)) in plan.deferred)
  {
    hide FillUp, AdmittedPeaks, Reason, DistinctIds;
    var before, plan := FillUp(ranked[..k], available), FillUp(ranked, available).plan;
    FillPartitions(ranked[..k], available);
    if ranked[k].peak <= before.remaining {
      var at := AdmittedAt(ranked, available, k);
    } else {
      var at := DeferredAt(ranked, available, k);
      NotBoth(ranked, available, ranked[k].taskId, at);
    }
  }

  lemma AdmittedAt(ranked: seq<Candidate>, available: nat, k: nat) returns (at: nat)
    requires k < |ranked| && ranked[k].peak <= FillUp(ranked[..k], available).remaining
    ensures at < |FillUp(ranked, available).plan.admitted|
    ensures FillUp(ranked, available).plan.admitted[at] == ranked[k].taskId
  {
    assert ranked[..k + 1][..k] == ranked[..k];
    at := |FillUp(ranked[..k], available).plan.admitted|;
    assert FillUp(ranked[..k + 1], available).plan.admitted[at] == ranked[k].taskId;
    RemainingShrinks(ranked, available, k + 1);
  }

  lemma DeferredAt(ranked: seq<Candidate>, available: nat, k: nat) returns (at: nat)
    requires k < |ranked| && ranked[k].peak > FillUp(ranked[..k], available).remaining
    ensures at < |FillUp(ranked, available).plan.deferred|
    ensures FillUp(ranked, available).plan.deferred[at]
         == Deferral(ranked[k].taskId, Reason(ranked[k].peak, FillUp(ranked[..k], available).remaining))
  {
    hide Reason;
    var d := Deferral(ranked[k].taskId, Reason(ranked[k].peak, FillUp(ranked[..k], available).remaining));
    assert ranked[..k + 1][..k] == ranked[..k];
    at := |FillUp(ranked[..k], available).plan.deferred|;
    assert FillUp(ranked[..k + 1], available).plan.deferred[at] == d;
    RemainingShrinks(ranked, available, k + 1);
  }

  lemma NotBoth(ranked: seq<Candidate>, available: nat, id: string, at: nat)
    requires DistinctIds(ranked)
    requires at < |FillUp(ranked, available).plan.deferred| && FillUp(ranked, available).plan.deferred[at].taskId == id
    ensures id !in FillUp(ranked, available).plan.admitted
  {
    var plan := FillUp(ranked, available).plan;
    FillPartitions(ranked, available);
    assert DeferredIds(plan.deferred)[at] == id;
    if id in plan.admitted {
      assert multiset(plan.admitted)[id] >= 1 && multiset(DeferredIds(plan.deferred))[id] >= 1;
      assert multiset(Ids(ranked))[id] >= 2;
      OnceEach(ranked, id);
    }
  }

  lemma {:induction false} OnceEach(cs: seq<Candidate>, id: string)
    requires DistinctIds(cs)
    ensures multiset(Ids(cs))[id] <= 1
  {
    if cs != [] {
      var n := |cs| - 1;
      assert forall i :: 0 <= i < n ==> cs[..n][i] == cs[i];
      OnceEach(cs[..n], id);
      assert Ids(cs) == Ids(cs[..n]) + [cs[n].taskId];
      forall i | 0 <= i < n ensures Ids(cs[..n])[i] != cs[n].taskId {
        assert cs[i].taskId != cs[n].taskId;
      }
    }
  }

  /** The peaks of those candidates whose ids are listed. */
  function PeaksOf(cs: seq<Candidate>, ids: seq<string>): nat {
    if cs == [] then 0
    else
      var n := |cs| - 1;
      PeaksOf(cs[..n], ids) + if cs[n].taskId in ids then cs[n].peak else 0
  }

  lemma {:induction false} PeaksOfAdmitted(ranked: seq<Candidate>, available: nat, k: nat)
    requires DistinctIds(ranked) && k <= |ranked|
    ensures PeaksOf(ranked[..k], FillUp(ranked, available).plan.admitted) == AdmittedPeaks(ranked[..k], available)
  {
    hide FillUp, DistinctIds;
    if k > 0 {
      PeaksOfAdmitted(ranked, available, k - 1);
      assert ranked[..k][..k - 1] == ranked[..k - 1];
      AdmittedIff(ranked, available, k - 1);
      FillPartitions(ranked[..k - 1], available);
    }
  }

  lemma {:induction false} PlacePeaks(cs: seq<Candidate>, c: Candidate, ids: seq<string>)
    ensures PeaksOf(Place(cs, c), ids) == PeaksOf(cs, ids) + if c.taskId in ids then c.peak else 0
  {
    if cs != [] && Outranks(c, cs[|cs| - 1]) {
      var n := |cs| - 1;
      PlacePeaks(cs[..n], c, ids);
      assert Place(cs, c)[..|Place(cs, c)| - 1] == Place(cs[..n], c);
    } else {
      assert (cs + [c])[..|cs|] == cs;
    }
  }

  lemma {:induction false} RankPeaks(cs: seq<Candidate>, ids: seq<string>)
    ensures PeaksOf(Rank(cs), ids) == PeaksOf(cs, ids)
  {
    if cs != [] {
      RankPeaks(cs[..|cs| - 1], ids);
      PlacePeaks(Rank(cs[..|cs| - 1]), cs[|cs| - 1], ids);
    }
  }

  /** The plan is feasible and leaves no room it could have used: every candidate is admitted or
      deferred and not both, the admitted peaks fit, and adding any deferred candidate to them
      would not. */
  lemma PlanIsFullAndFeasible(cs: seq<Candidate>, available: nat, c: Candidate)
    requires DistinctIds(cs) && c in cs
    ensures var plan := PlanOf(cs, available);
      var used := PeaksOf(cs, plan.admitted);
      && used <= available
      && (c.taskId in plan.admitted <==> c.taskId !in DeferredIds(plan.deferred))
      && (c.taskId in DeferredIds(plan.deferred) ==> used + c.peak > available)
  {
    var k := RankOf(cs, c);
    RankPeaks(cs, PlanOf(cs, available).admitted);
    FilledIsFull(Rank(cs), available, c);
  }

  lemma FilledIsFull(ranked: seq<Candidate>, available: nat, c: Candidate)
    requires DistinctIds(ranked) && c in ranked
    ensures var plan := FillUp(ranked, available).plan;
      var used := PeaksOf(ranked, plan.admitted);
      && used <= available
      && (c.taskId in plan.admitted <==> c.taskId !in DeferredIds(plan.deferred))
      && (c.taskId in DeferredIds(plan.deferred) ==> used + c.peak > available)
  {
    hide DistinctIds, FillUp, AdmittedPeaks, PeaksOf, Reason;
    var k :| 0 <= k < |ranked| && ranked[k] == c;
    var plan := FillUp(ranked, available).plan;
    assert ranked[..|ranked|] == ranked;
    PeaksOfAdmitted(ranked, available, |ranked|);
    FillPartitions(ranked, available);
    FillPartitions(ranked[..k], available);
    RemainingShrinks(ranked, available, k);
    AdmittedIff(ranked, available, k);
    if c.taskId in plan.admitted { NeverBoth(ranked, available, c.taskId); }
    if c.taskId !in plan.admitted {
      InDeferred(plan.deferred, Deferral(c.taskId, Reason(c.peak, available - AdmittedPeaks(ranked[..k], available))));
    }
  }

  lemma InDeferred(ds: seq<Deferral>, d: Deferral)
    requires d in ds
    ensures d.taskId in DeferredIds(ds)
  {
    var i :| 0 <= i < |ds| && ds[i] == d;
    assert DeferredIds(ds)[i] == d.taskId;
  }

  lemma NeverBoth(ranked: seq<Candidate>, available: nat, id: string)
    requires DistinctIds(ranked) && id in FillUp(ranked, available).plan.admitted
    ensures id !in DeferredIds(FillUp(ranked, available).plan.deferred)
  {
    hide DistinctIds, FillUp;
    var deferred := FillUp(ranked, available).plan.deferred;
    if id in DeferredIds(deferred) {
      var i :| 0 <= i < |deferred| && DeferredIds(deferred)[i] == id;
      NotBoth(ranked, available, id, i);
    }
  }

  // ----- the plan as a choice -----

  /** Which of the ranked candidates are admitted. */
  function Chosen(ranked: seq<Candidate>, available: nat): (c: seq<bool>)
    ensures |c| == |ranked|
  {
    if ranked == [] then []
    else
      var n := |ranked| - 1;
      Chosen(ranked[..n], available) + [ranked[n].peak <= FillUp(ranked[..n], available).remaining]
  }

  function ChoicePeaks(ranked: seq<Candidate>, choice: seq<bool>): nat
    requires |choice| == |ranked|
  {
    if ranked == [] then 0
    else
      var n := |ranked| - 1;
      ChoicePeaks(ranked[..n], choice[..n]) + if choice[n] then ranked[n].peak else 0
  }

  lemma {:induction false} ChosenAt(ranked: seq<Candidate>, available: nat, k: nat)
    requires k < |ranked|
    ensures Chosen(ranked, available)[..k] == Chosen(ranked[..k], available)
    ensures Chosen(ranked, available)[k] <==> ranked[k].peak <= FillUp(ranked[..k], available).remaining
    decreases |ranked|
  {
    hide FillUp;
    var n := |ranked| - 1;
    if k < n {
      ChosenAt(ranked[..n], available, k);
      assert ranked[..n][..k] == ranked[..k];
      assert Chosen(ranked, available)[..k] == Chosen(ranked[..n], available)[..k];
    }
  }

  lemma {:induction false} ChosenPeaks(ranked: seq<Candidate>, available: nat)
    ensures ChoicePeaks(ranked, Chosen(ranked, available)) + FillUp(ranked, available).remaining == available
  {
    if ranked != [] {
      var n := |ranked| - 1;
      ChosenPeaks(ranked[..n], available);
      assert Chosen(ranked, available)[..n] == Chosen(ranked[..n], available);
    }
  }

  lemma {:induction false} ChoiceGrows(ranked: seq<Candidate>, choice: seq<bool>, k: nat)
    requires k <= |ranked| == |choice|
    ensures ChoicePeaks(ranked[..k], choice[..k]) <= ChoicePeaks(ranked, choice)
    decreases |ranked|
  {
    var n := |ranked| - 1;
    if k == |ranked| {
      assert ranked[..k] == ranked && choice[..k] == choice;
    } else {
      ChoiceGrows(ranked[..n], choice[..n], k);
      assert ranked[..n][..k] == ranked[..k] && choice[..n][..k] == choice[..k];
    }
  }

  lemma {:induction false} FirstDifference(a: seq<bool>, b: seq<bool>) returns (k: nat)
    requires |a| == |b| && a != b
    ensures k < |a| && a[..k] == b[..k] && a[k] != b[k]
  {
    var n := |a| - 1;
    if a[..n] != b[..n] {
      k := FirstDifference(a[..n], b[..n]);
      assert a[..n][..k] == a[..k] && b[..n][..k] == b[..k];
    } else {
      k := n;
      assert a == a[..n] + [a[n]] && b == b[..n] + [b[n]];
    }
  }

  /** What the plan is: of all choices whose peaks fit, the one that is greatest in rank order. Any
      other parts from it by leaving out a candidate that the plan admits. */
  lemma PlanIsGreatest(cs: seq<Candidate>, available: nat, choice: seq<bool>) returns (k: nat)
    requires |choice| == |Rank(cs)|
    ensures ChoicePeaks(Rank(cs), Chosen(Rank(cs), available)) <= available
    ensures ChoicePeaks(Rank(cs), choice) <= available && choice != Chosen(Rank(cs), available) ==>
      && k < |choice|
      && choice[..k] == Chosen(Rank(cs), available)[..k]
      && Chosen(Rank(cs), available)[k] && !choice[k]
  {
    hide Rank, FillUp, Chosen, ChoicePeaks;
    var ranked := Rank(cs);
    var chosen := Chosen(ranked, available);
    ChosenPeaks(ranked, available);
    k := 0;
    if ChoicePeaks(ranked, choice) <= available && choice != chosen {
      k := FirstDifference(choice, chosen);
      ChosenAt(ranked, available, k);
      if choice[k] {
        ChosenPeaks(ranked[..k], available);
        ChoiceGrows(ranked, choice, k + 1);
        OneMoreChoice(ranked, choice, k);
        assert false;
      }
    }
  }

  lemma OneMoreChoice(ranked: seq<Candidate>, choice: seq<bool>, k: nat)
    requires k < |ranked| == |choice| && choice[k]
    ensures ChoicePeaks(ranked[..k + 1], choice[..k + 1]) == ChoicePeaks(ranked[..k], choice[..k]) + ranked[k].peak
  {
    assert ranked[..k + 1][..k] == ranked[..k] && choice[..k + 1][..k] == choice[..k];
  }

  /** The choice is the admitted list. */
  lemma ChosenAreAdmitted(ranked: seq<Candidate>, available: nat, k: nat)
    requires k < |ranked| && DistinctIds(ranked)
    ensures Chosen(ranked, available)[k] <==> ranked[k].taskId in FillUp(ranked, available).plan.admitted
  {
    hide DistinctIds, FillUp, Chosen, AdmittedPeaks;
    ChosenAt(ranked, available, k);
    AdmittedIff(ranked, available, k);
    FillPartitions(ranked[..k], available);
  }

  /** A candidate and those that outrank it. */
  function Higher(cs: seq<Candidate>, x: Candidate): seq<Candidate> {
    if cs == [] then []
    else
      var n := |cs| - 1;
      Higher(cs[..n], x) + if cs[n] == x || Outranks(cs[n], x) then [cs[n]] else []
  }

  lemma {:induction false} HigherCounts(cs: seq<Candidate>, x: Candidate, c: Candidate)
    ensures multiset(Higher(cs, x))[c] == if c == x || Outranks(c, x) then multiset(cs)[c] else 0
  {
    if cs != [] {
      var n := |cs| - 1;
      HigherCounts(cs[..n], x, c);
      assert cs == cs[..n] + [cs[n]];
    }
  }

  ghost predicate SameCount(p: multiset<Candidate>, q: multiset<Candidate>, c: Candidate) {
    p[c] == q[c]
  }

  lemma SameCounts(p: multiset<Candidate>, q: multiset<Candidate>)
    requires forall c :: SameCount(p, q, c)
    ensures p == q
  {
    forall c: Candidate ensures p[c] == q[c] {
      assert SameCount(p, q, c);
    }
  }

  /** In a ranking, the higher ones are the front. */
  lemma {:induction false} HigherIsPrefix(ranked: seq<Candidate>, k: nat)
    requires Ranked(ranked) && k < |ranked|
    ensures multiset(Higher(ranked, ranked[k])) == multiset(ranked[..k + 1])
  {
    hide Higher, Ranked, Outranks;
    var x, front, back := ranked[k], ranked[..k + 1], ranked[k + 1..];
    assert ranked == front + back;
    forall c ensures SameCount(multiset(Higher(ranked, x)), multiset(front), c) {
      HigherCounts(ranked, x, c);
      if c in front {
        InFront(ranked, k, c);
      }
      if c in back {
        InBack(ranked, k, c);
      }
    }
    SameCounts(multiset(Higher(ranked, x)), multiset(front));
  }

  lemma InFront(ranked: seq<Candidate>, k: nat, c: Candidate)
    requires Ranked(ranked) && k < |ranked| && c in ranked[..k + 1]
    ensures (c == ranked[k] || Outranks(c, ranked[k])) && c !in ranked[k + 1..]
  {
    var i :| 0 <= i <= k && ranked[i] == c;
    NotBehind(ranked, k, i);
  }

  lemma InBack(ranked: seq<Candidate>, k: nat, c: Candidate)
    requires Ranked(ranked) && k < |ranked| && c in ranked[k + 1..]
    ensures c != ranked[k] && !Outranks(c, ranked[k])
  {
    var j :| 0 <= j < |ranked[k + 1..]| && ranked[k + 1..][j] == c;
    assert c == ranked[k + 1 + j];
    Asymmetric(ranked[k], c);
  }

  lemma NotBehind(ranked: seq<Candidate>, k: nat, i: nat)
    requires Ranked(ranked) && i <= k < |ranked|
    ensures ranked[i] !in ranked[k + 1..]
  {
    forall j | k < j < |ranked| ensures ranked[j] != ranked[i] {
      assert Outranks(ranked[i], ranked[j]);
      Asymmetric(ranked[i], ranked[i]);
    }
  }

  /** A decision depends only on the candidate and those that outrank it: adding, removing or
      changing lower-ranked candidates never changes it. */
  lemma {:induction false} LowerRanksDoNotMatter(a: seq<Candidate>, b: seq<Candidate>, x: Candidate, available: nat)
    requires DistinctIds(a) && DistinctIds(b) && x in a && x in b
    requires multiset(Higher(a, x)) == multiset(Higher(b, x))
    ensures x.taskId in PlanOf(a, available).admitted <==> x.taskId in PlanOf(b, available).admitted
  {
    hide DistinctIds, FillUp, Higher, AdmittedPeaks, Rank, Ranked, Outranks;
    var i := RankOf(a, x);
    var j := RankOf(b, x);
    SameHigher(a, Rank(a), x);
    SameHigher(b, Rank(b), x);
    HigherIsPrefix(Rank(a), i);
    HigherIsPrefix(Rank(b), j);
    RankedPrefix(Rank(a), i + 1);
    RankedPrefix(Rank(b), j + 1);
    RankingIsUnique(Rank(a)[..i + 1], Rank(b)[..j + 1]);
    assert Rank(a)[..i + 1][..i] == Rank(a)[..i] && Rank(b)[..j + 1][..j] == Rank(b)[..j];
    AdmittedIff(Rank(a), available, i);
    AdmittedIff(Rank(b), available, j);
  }

  lemma SameHigher(a: seq<Candidate>, b: seq<Candidate>, x: Candidate)
    requires multiset(a) == multiset(b)
    ensures multiset(Higher(a, x)) == multiset(Higher(b, x))
  {
    hide Higher, Outranks;
    var p, q := multiset(Higher(a, x)), multiset(Higher(b, x));
    forall c ensures SameCount(p, q, c) {
      HigherCounts(a, x, c);
      HigherCounts(b, x, c);
    }
    SameCounts(p, q);
  }

  lemma RankOf(cs: seq<Candidate>, x: Candidate) returns (i: nat)
    requires DistinctIds(cs) && x in cs
    ensures i < |Rank(cs)| && Rank(cs)[i] == x && Ranked(Rank(cs)) && DistinctIds(Rank(cs))
    ensures multiset(Rank(cs)) == multiset(cs)
  {
    RankRanked(cs);
    RankIsPermutation(cs);
    assert x in multiset(Rank(cs));
    i :| 0 <= i < |Rank(cs)| && Rank(cs)[i] == x;
    DistinctInAnyOrder(cs, Rank(cs));
  }

  lemma RankedPrefix(ranked: seq<Candidate>, k: nat)
    requires Ranked(ranked) && k <= |ranked|
    ensures Ranked(ranked[..k])
  {
  }

  lemma DistinctInAnyOrder(a: seq<Candidate>, b: seq<Candidate>)
    requires DistinctIds(a) && multiset(a) == multiset(b)
    ensures DistinctIds(b)
  {
    forall i, j | 0 <= i < j < |b| ensures b[i].taskId != b[j].taskId {
      assert b[i] in multiset(a) && b[j] in multiset(a);
      var p :| 0 <= p < |a| && a[p] == b[i];
      var q :| 0 <= q < |a| && a[q] == b[j];
      if p == q {
        Once(a, b[i]);
        Twice(b, i, j);
      }
    }
  }

  lemma {:induction false} Once(a: seq<Candidate>, x: Candidate)
    requires DistinctIds(a)
    ensures multiset(a)[x] <= 1
  {
    if a != [] {
      var n := |a| - 1;
      assert forall i :: 0 <= i < n ==> a[..n][i] == a[i];
      Once(a[..n], x);
      assert a == a[..n] + [a[n]];
      forall i | 0 <= i < n ensures a[..n][i] != a[n] {
        assert a[i].taskId != a[n].taskId;
      }
    }
  }

  lemma Twice(b: seq<Candidate>, i: nat, j: nat)
    requires i < j < |b| && b[i] == b[j]
    ensures multiset(b)[b[i]] >= 2
  {
    assert b == b[..j] + b[j..];
    assert b[..j][i] == b[i] && b[j..][0] == b[i];
  }
}
