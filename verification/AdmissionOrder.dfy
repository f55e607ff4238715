/** Which candidates the admission planner prefers (crates/memmux-sched/src/score.rs), said of scores,
    peaks and ids alone. */
module AdmissionOrder {
  import opened Admission
  import opened Lexicographic
  import Radix

  /** `a` goes ahead of `b`: its score is higher, or the scores are equal and its id is smaller, that is,
      a proper prefix of the other, or with the smaller character where they first differ. */
  ghost predicate Ahead(a: Candidate, b: Candidate) {
    a.score > b.score || (a.score == b.score && exists n: nat :: FirstDifferAt(a.taskId, b.taskId, n))
  }

  lemma AheadIff(a: Candidate, b: Candidate)
    ensures Ahead(a, b) <==> Outranks(a, b)
  {
    BeforeIff(a.taskId, b.taskId);
  }

  /** The peaks of the admitted candidates that go ahead of `x`. */
  ghost function AdmittedAhead(cs: seq<Candidate>, admitted: seq<string>, x: Candidate): nat {
    if cs == [] then 0
    else
      var n := |cs| - 1;
      AdmittedAhead(cs[..n], admitted, x) +
      if cs[n].taskId in admitted && Ahead(cs[n], x) then cs[n].peak else 0
  }

  // ----- the same in rank order -----

  lemma {:induction false} PlaceAhead(cs: seq<Candidate>, c: Candidate, ids: seq<string>, x: Candidate)
    ensures AdmittedAhead(Place(cs, c), ids, x)
         == AdmittedAhead(cs, ids, x) + if c.taskId in ids && Ahead(c, x) then c.peak else 0
  {
    hide Ahead, Outranks;
    if cs != [] && Outranks(c, cs[|cs| - 1]) {
      var n := |cs| - 1;
      PlaceAhead(cs[..n], c, ids, x);
      assert Place(cs, c)[..|Place(cs, c)| - 1] == Place(cs[..n], c);
    } else {
      assert (cs + [c])[..|cs|] == cs;
    }
  }

  lemma {:induction false} RankAhead(cs: seq<Candidate>, ids: seq<string>, x: Candidate)
    ensures AdmittedAhead(Rank(cs), ids, x) == AdmittedAhead(cs, ids, x)
  {
    hide Ahead;
    if cs != [] {
      RankAhead(cs[..|cs| - 1], ids, x);
      PlaceAhead(Rank(cs[..|cs| - 1]), cs[|cs| - 1], ids, x);
    }
  }

  /** In a ranking, those ahead of the `k`th are the first `k`. */
  lemma {:induction false} AheadAreFront(ranked: seq<Candidate>, ids: seq<string>, k: nat, m: nat)
    requires Ranked(ranked) && k < |ranked| && m <= |ranked|
    ensures AdmittedAhead(ranked[..m], ids, ranked[k]) == PeaksOf(ranked[..if m <= k then m else k], ids)
  {
    hide Ahead;
    if m > 0 {
      AheadAreFront(ranked, ids, k, m - 1);
      var front, c := ranked[..m], ranked[m - 1];
      assert front[..m - 1] == ranked[..m - 1];
      AheadIff(c, ranked[k]);
      if m - 1 < k {
        assert Outranks(c, ranked[k]);
      } else {
        NotAheadOfEarlier(ranked, k, m - 1);
      }
    }
  }

  lemma NotAheadOfEarlier(ranked: seq<Candidate>, k: nat, m: nat)
    requires Ranked(ranked) && k <= m < |ranked|
    ensures !Outranks(ranked[m], ranked[k])
  {
    Asymmetric(ranked[k], ranked[m]);
  }

  // ----- what the plan prefers -----

  /** Who gets in, without ranks: a candidate is admitted if and only if its peak fits in what the
      admitted candidates ahead of it, by score and then by id, leave of the available bytes. Another
      one is deferred, with its need and what was left, in whole mebibytes, in the reason. */
  lemma AdmittedIffFits(cs: seq<Candidate>, available: nat, x: Candidate)
    requires DistinctIds(cs) && x in cs
    ensures var admitted := PlanOf(cs, available).admitted;
      && AdmittedAhead(cs, admitted, x) <= available
      && (x.taskId in admitted <==> AdmittedAhead(cs, admitted, x) + x.peak <= available)
    ensures var left := available - AdmittedAhead(cs, PlanOf(cs, available).admitted, x);
      x.taskId !in PlanOf(cs, available).admitted ==>
        Deferral(x.taskId, "insufficient headroom: needs " + Radix.Show(x.peak / 1_048_576, 10) + " MiB, " +
                           Radix.Show(left / 1_048_576, 10) + " MiB free") in PlanOf(cs, available).deferred
  {
    hide Radix.Show, Ahead, FillUp, Rank, AdmittedPeaks, PeaksOf, DistinctIds, Ranked;
    var ranked, admitted := Rank(cs), PlanOf(cs, available).admitted;
    var k := RankOf(cs, x);
    RankAhead(cs, admitted, x);
    AheadAreFront(ranked, admitted, k, |ranked|);
    assert ranked[..|ranked|] == ranked;
    PeaksOfAdmitted(ranked, available, k);
    AdmittedIff(ranked, available, k);
  }

  lemma {:induction false} AheadGrows(cs: seq<Candidate>, ids: seq<string>, c: Candidate, d: Candidate)
    requires Ahead(c, d)
    ensures AdmittedAhead(cs, ids, c) <= AdmittedAhead(cs, ids, d)
    ensures c in cs && c.taskId in ids ==> AdmittedAhead(cs, ids, c) + c.peak <= AdmittedAhead(cs, ids, d)
  {
    hide Ahead;
    if cs != [] {
      var n := |cs| - 1;
      AheadGrows(cs[..n], ids, c, d);
      assert cs == cs[..n] + [cs[n]];
      AheadChain(cs[n], c, d);
    }
  }

  lemma AheadChain(b: Candidate, c: Candidate, d: Candidate)
    requires Ahead(c, d)
    ensures Ahead(b, c) ==> Ahead(b, d)
    ensures !Ahead(c, c)
  {
    AheadIff(b, c);
    AheadIff(c, d);
    AheadIff(b, d);
    AheadIff(c, c);
    if Outranks(b, c) { OutranksTransitive(b, c, d); }
    Asymmetric(c, c);
  }

  /** Preference: with distinct ids, a candidate that asks for no more than an admitted one and has the
      higher score, or the same score and the smaller id, is admitted too. */
  lemma BetterAreAdmitted(cs: seq<Candidate>, available: nat, c: Candidate, d: Candidate)
    requires DistinctIds(cs) && c in cs && d in cs
    requires c.peak <= d.peak && d.taskId in PlanOf(cs, available).admitted
    ensures c.score > d.score ==> c.taskId in PlanOf(cs, available).admitted
    ensures c.score == d.score && (exists n: nat :: FirstDifferAt(c.taskId, d.taskId, n)) ==>
      c.taskId in PlanOf(cs, available).admitted
  {
    AdmittedIffFits(cs, available, c);
    AdmittedIffFits(cs, available, d);
    if Ahead(c, d) { AheadGrows(cs, PlanOf(cs, available).admitted, c, d); }
  }

  // ----- the order of the plan -----

  /** The ids of one of the two lists of a plan. */
  function Listed(plan: Plan, deferred: bool): seq<string> {
    if deferred then DeferredIds(plan.deferred) else plan.admitted
  }

  lemma ListGrows(ranked: seq<Candidate>, available: nat, deferred: bool)
    requires ranked != []
    ensures var before := Listed(FillUp(ranked[..|ranked| - 1], available).plan, deferred);
      var after := Listed(FillUp(ranked, available).plan, deferred);
      after == before || after == before + [ranked[|ranked| - 1].taskId]
  {
    hide Reason;
  }

  lemma {:induction false} ListedAt(ranked: seq<Candidate>, available: nat, deferred: bool, i: nat) returns (k: nat)
    requires i < |Listed(FillUp(ranked, available).plan, deferred)|
    ensures k < |ranked| && ranked[k].taskId == Listed(FillUp(ranked, available).plan, deferred)[i]
  {
    if ranked == [] {
      assert false;
    } else {
      var n := |ranked| - 1;
      ListGrows(ranked, available, deferred);
      if i < |Listed(FillUp(ranked[..n], available).plan, deferred)| {
        k := ListedAt(ranked[..n], available, deferred, i);
      } else {
        k := n;
      }
    }
  }

  lemma {:induction false} ListedInOrder(ranked: seq<Candidate>, available: nat, deferred: bool, i: nat, j: nat)
    returns (k: nat, m: nat)
    requires i < j < |Listed(FillUp(ranked, available).plan, deferred)|
    ensures k < m < |ranked|
    ensures ranked[k].taskId == Listed(FillUp(ranked, available).plan, deferred)[i]
    ensures ranked[m].taskId == Listed(FillUp(ranked, available).plan, deferred)[j]
  {
    if ranked == [] {
      assert false;
    } else {
      var n := |ranked| - 1;
      ListGrows(ranked, available, deferred);
      if j < |Listed(FillUp(ranked[..n], available).plan, deferred)| {
        k, m := ListedInOrder(ranked[..n], available, deferred, i, j);
      } else {
        k := ListedAt(ranked[..n], available, deferred, i);
        m := n;
      }
    }
  }

  /** Among the admitted, and among the deferred, better candidates come first: scores never rise, and at
      equal scores the ids grow. */
  lemma PlanIsInOrder(cs: seq<Candidate>, available: nat, deferred: bool, i: nat, j: nat)
    returns (c: Candidate, d: Candidate)
    requires DistinctIds(cs) && i < j < |Listed(PlanOf(cs, available), deferred)|
    ensures c in cs && c.taskId == Listed(PlanOf(cs, available), deferred)[i]
    ensures d in cs && d.taskId == Listed(PlanOf(cs, available), deferred)[j]
    ensures c.score >= d.score
    ensures c.score == d.score ==> exists n: nat :: FirstDifferAt(c.taskId, d.taskId, n)
  {
    hide FillUp, Rank, Listed, DistinctIds;
    var ranked := Rank(cs);
    RankRanked(cs);
    RankIsPermutation(cs);
    var k, m := ListedInOrder(ranked, available, deferred, i, j);
    c, d := ranked[k], ranked[m];
    assert c in multiset(ranked) && d in multiset(ranked);
    AheadIff(c, d);
  }
}
