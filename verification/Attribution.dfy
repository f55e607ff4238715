/** Three byte accounts of one snapshot: per subtree (crates/memmux-metrics/src/tree.rs), per owner
    (crates/memmux-metrics/src/attribution.rs) and provider against manager
    (crates/memmux-bench/src/sampler.rs). Byte totals are unbounded here. */
module Attribution {
  import opened Memory
  import opened Prelude
  import opened ProcessTree

  // ----- sums over sets of processes -----

  function Weight(t: Tree, p: Pid): nat {
    if p in t.byPid then t.byPid[p].AccountedBytes() else 0
  }

  ghost function Total(t: Tree, s: set<Pid>): nat {
    if s == {} then 0 else var p :| p in s; Weight(t, p) + Total(t, s - {p})
  }

  /** The total is the plain sums of what the processes report. */
  lemma {:induction false} TotalIsMemory(t: Tree, s: set<Pid>)
    ensures Total(t, s) == MemoryOf(t, s)
    decreases s
  {
    if s == {} {
      MemoryOfNothing(t);
    } else {
      hide MemoryOf;
      var p :| p in s && Total(t, s) == Weight(t, p) + Total(t, s - {p});
      var rest := s - {p};
      assert s == rest + {p};
      TotalIsMemory(t, rest);
      MemoryAdds(t, rest, p);
      assert MemoryOf(t, s) == MemoryOf(t, rest) + Weight(t, p);
    }
  }

  /** The total does not depend on the order of counting. */
  lemma {:induction false} TotalRemove(t: Tree, s: set<Pid>, p: Pid)
    requires p in s
    ensures Total(t, s) == Weight(t, p) + Total(t, s - {p})
    decreases s
  {
    var q :| q in s && Total(t, s) == Weight(t, q) + Total(t, s - {q});
    if q != p {
      TotalRemove(t, s - {q}, p);
      TotalRemove(t, s - {p}, q);
      assert s - {q} - {p} == s - {p} - {q};
    }
  }

  lemma TotalAdd(t: Tree, s: set<Pid>, p: Pid)
    requires p !in s
    ensures Total(t, s + {p}) == Total(t, s) + Weight(t, p)
  {
    TotalRemove(t, s + {p}, p);
    assert s + {p} - {p} == s;
  }

  lemma {:induction false} TotalUnion(t: Tree, a: set<Pid>, b: set<Pid>)
    ensures Total(t, a + b) + Total(t, a * b) == Total(t, a) + Total(t, b)
    decreases b
  {
    if b == {} {
      assert a + b == a && a * b == {};
    } else {
      var p :| p in b;
      var c := b - {p};
      TotalUnion(t, a, c);
      TotalRemove(t, b, p);
      if p in a {
        assert a + b == a + c && a * b == a * c + {p};
        TotalAdd(t, a * c, p);
      } else {
        assert a + b == (a + c) + {p} && a * b == a * c;
        TotalAdd(t, a + c, p);
      }
    }
  }

  lemma TotalPositive(t: Tree, s: set<Pid>, p: Pid)
    requires p in s && Weight(t, p) > 0
    ensures Total(t, s) > 0
  {
    TotalRemove(t, s, p);
  }

  // ----- account 1: subtrees -----

  /** A process and everything below it, as far as sampled. */
  ghost function Subtree(t: Tree, r: Pid): set<Pid> {
    set p | p in t.byPid && Below(t, r, p)
  }

  method SubtreeAccountedBytes(t: Tree, pid: Pid) returns (total: nat)
    ensures total == Total(t, Subtree(t, pid)) == MemoryOf(t, Subtree(t, pid))
  {
    total := if pid in t.byPid then t.byPid[pid].AccountedBytes() else 0;
    var down := Descendants(t, pid);
    for i := 0 to |down|
      invariant total == Weight(t, pid) + SumWeights(t, down[..i])
    {
      assert down[..i + 1][..i] == down[..i];
      var d := down[i];
      if d in t.byPid {
        total := total + t.byPid[d].AccountedBytes();
      }
    }
    assert down[..|down|] == down;
    SubtreeIsWalk(t, pid, down);
    TotalIsMemory(t, Subtree(t, pid));
  }

  function SumWeights(t: Tree, s: seq<Pid>): nat {
    if s == [] then 0 else SumWeights(t, s[..|s| - 1]) + Weight(t, s[|s| - 1])
  }

  function Members(s: seq<Pid>): set<Pid> { set x | x in s }

  function Sampled(t: Tree, s: set<Pid>): set<Pid> { set p | p in s && p in t.byPid }

  lemma {:induction false} DistinctSum(t: Tree, s: seq<Pid>)
    requires NoDuplicates(s)
    ensures SumWeights(t, s) == Total(t, Members(s))
  {
    if s != [] {
      var n := |s| - 1;
      assert s == s[..n] + [s[n]];
      assert forall i :: 0 <= i < n ==> s[..n][i] == s[i] != s[n];
      DistinctSum(t, s[..n]);
      TotalAdd(t, Members(s[..n]), s[n]);
      assert Members(s) == Members(s[..n]) + {s[n]};
    }
  }

  lemma SubtreeIsWalk(t: Tree, r: Pid, down: seq<Pid>)
    requires IsDescendants(t, r, down)
    ensures Total(t, Subtree(t, r)) == Weight(t, r) + SumWeights(t, down)
  {
    DistinctSum(t, down);
    TotalAdd(t, Members(down), r);
    OnlySampledCount(t, Members(down) + {r});
    assert r in Ball(t, r, 0);
    assert Subtree(t, r) == Sampled(t, Members(down) + {r});
  }

  lemma {:induction false} OnlySampledCount(t: Tree, s: set<Pid>)
    ensures Total(t, s) == Total(t, Sampled(t, s))
    decreases s
  {
    if s == {} {
      assert Sampled(t, s) == {};
    } else {
      var p :| p in s;
      OnlySampledCount(t, s - {p});
      TotalRemove(t, s, p);
      if p in t.byPid {
        TotalRemove(t, Sampled(t, s), p);
        assert Sampled(t, s) - {p} == Sampled(t, s - {p});
      } else {
        assert Sampled(t, s) == Sampled(t, s - {p});
      }
    }
  }

  // ----- account 2: owners -----

  datatype Owner = Task(task: string) | Shared(service: string)

  datatype RootSpec = RootSpec(pid: Pid, owner: Owner)

  datatype Attributed = Owned(task: string) | SharedBy(service: string) | Escaped(task: string) | Unknown

  /** The owner registered for each root pid; the last registration of a pid counts. */
  function RootOwners(roots: seq<RootSpec>): map<Pid, Owner> {
    if roots == [] then map[]
    else RootOwners(roots[..|roots| - 1])[roots[|roots| - 1].pid := roots[|roots| - 1].owner]
  }

  lemma {:induction false} RootOwnersKeys(roots: seq<RootSpec>)
    ensures RootOwners(roots).Keys == set i | 0 <= i < |roots| :: roots[i].pid
  {
    if roots != [] {
      var n := |roots| - 1;
      RootOwnersKeys(roots[..n]);
      assert forall i :: 0 <= i < n ==> roots[..n][i] == roots[i];
    }
  }

  /** `n` links up from `p` there is a root. */
  predicate RootAt(t: Tree, p: Pid, roots: set<Pid>, n: nat) {
    Up(t, p, n).Some? && Up(t, p, n).value in roots
  }

  /** The first root met on the way up from `p`, `p` itself included. */
  ghost predicate IsNearest(t: Tree, p: Pid, roots: set<Pid>, r: Option<Pid>) {
    match r
    case None => forall n: nat :: !RootAt(t, p, roots, n)
    case Some(root) =>
      exists n: nat :: RootAt(t, p, roots, n) && Up(t, p, n) == Some(root)
        && forall m: nat | m < n :: !RootAt(t, p, roots, m)
  }

  lemma NearestIsUnique(t: Tree, p: Pid, roots: set<Pid>, r: Option<Pid>, s: Option<Pid>)
    requires IsNearest(t, p, roots, r) && IsNearest(t, p, roots, s)
    ensures r == s
  {
    if r.Some? && s.Some? {
      var m: nat :| RootAt(t, p, roots, m) && Up(t, p, m) == r && forall k: nat | k < m :: !RootAt(t, p, roots, k);
      var n: nat :| RootAt(t, p, roots, n) && Up(t, p, n) == s && forall k: nat | k < n :: !RootAt(t, p, roots, k);
      assert m == n;
    }
  }

  method NearestAncestorIn(t: Tree, pid: Pid, roots: set<Pid>) returns (r: Option<Pid>)
    ensures IsNearest(t, pid, roots, r)
  {
    if pid in roots {
      assert RootAt(t, pid, roots, 0);
      return Some(pid);
    }
    var up := Ancestors(t, pid);
    for i := 0 to |up|
      invariant forall n: nat | n <= i :: !RootAt(t, pid, roots, n)
    {
      if up[i] in roots {
        assert RootAt(t, pid, roots, i + 1);
        return Some(up[i]);
      }
    }
    forall n: nat ensures !RootAt(t, pid, roots, n) {
      if Up(t, pid, n).Some? {
        var a := Up(t, pid, n).value;
        assert a == pid || Above(t, pid, a);
        if a != pid {
          var i :| 0 <= i < |up| && up[i] == a;
          assert !RootAt(t, pid, roots, i + 1);
        }
      }
    }
    r := None;
  }

  /** The class that the nearest root, or the wrapper report, dictates. */
  predicate ClassifiedBy(owners: map<Pid, Owner>, expected: map<Pid, string>, p: Pid, a: Attributed, r: Option<Pid>) {
    match r
    case Some(root) =>
      root in owners &&
      a == (match owners[root] { case Task(task) => Owned(task) case Shared(service) => SharedBy(service) })
    case None => a == if p in expected then Escaped(expected[p]) else Unknown
  }

  /** How a process is classified. */
  ghost predicate IsClass(t: Tree, owners: map<Pid, Owner>, expected: map<Pid, string>, p: Pid, a: Attributed) {
    exists r: Option<Pid> :: IsNearest(t, p, owners.Keys, r) && ClassifiedBy(owners, expected, p, a, r)
  }

  datatype AttributionReport = AttributionReport(
    byPid: map<Pid, Attributed>,
    ownedBytes: nat,
    sharedBytes: nat,
    escapedBytes: nat,
    unknownBytes: nat)
  {
    function TotalBytes(): nat { ownedBytes + sharedBytes + escapedBytes + unknownBytes }

    function OwnedPids(): set<Pid> { set p | p in byPid && byPid[p].Owned? }
    function SharedPids(): set<Pid> { set p | p in byPid && byPid[p].SharedBy? }
    function EscapedPids(): set<Pid> { set p | p in byPid && byPid[p].Escaped? }
    function UnknownPids(): set<Pid> { set p | p in byPid && byPid[p].Unknown? }
  }

  /** Each total is the total of its class. */
  ghost predicate Balanced(t: Tree, r: AttributionReport) {
    && r.ownedBytes == Total(t, r.OwnedPids())
    && r.sharedBytes == Total(t, r.SharedPids())
    && r.escapedBytes == Total(t, r.EscapedPids())
    && r.unknownBytes == Total(t, r.UnknownPids())
  }

  ghost predicate IsReport(t: Tree, roots: seq<RootSpec>, expected: map<Pid, string>, r: AttributionReport) {
    && r.byPid.Keys == t.byPid.Keys
    && (forall p :: p in t.byPid ==> IsClass(t, RootOwners(roots), expected, p, r.byPid[p]))
    && Balanced(t, r)
  }

  /** One more process entered in the report. */
  function Enter(r: AttributionReport, p: Pid, a: Attributed, bytes: nat): AttributionReport {
    var s := r.(byPid := r.byPid[p := a]);
    match a
    case Owned(_) => s.(ownedBytes := r.ownedBytes + bytes)
    case SharedBy(_) => s.(sharedBytes := r.sharedBytes + bytes)
    case Escaped(_) => s.(escapedBytes := r.escapedBytes + bytes)
    case Unknown => s.(unknownBytes := r.unknownBytes + bytes)
  }

  lemma EnterBalances(t: Tree, r: AttributionReport, p: Pid, a: Attributed)
    requires Balanced(t, r) && p !in r.byPid
    ensures Balanced(t, Enter(r, p, a, Weight(t, p)))
  {
    hide Total, Weight;
    var s := Enter(r, p, a, Weight(t, p));
    assert s.byPid == r.byPid[p := a];
    TotalGrows(t, r.OwnedPids(), s.OwnedPids(), p, a.Owned?);
    TotalGrows(t, r.SharedPids(), s.SharedPids(), p, a.SharedBy?);
    TotalGrows(t, r.EscapedPids(), s.EscapedPids(), p, a.Escaped?);
    TotalGrows(t, r.UnknownPids(), s.UnknownPids(), p, a.Unknown?);
  }

  lemma TotalGrows(t: Tree, s: set<Pid>, s': set<Pid>, p: Pid, grows: bool)
    requires p !in s && forall q :: q in s' <==> q in s || (grows && q == p)
    ensures Total(t, s') == Total(t, s) + if grows then Weight(t, p) else 0
  {
    if grows {
      TotalAdd(t, s, p);
      assert s' == s + {p};
    } else {
      assert s' == s;
    }
  }

  method Attribute(t: Tree, roots: seq<RootSpec>, expected: map<Pid, string>) returns (report: AttributionReport)
    requires forall p :: p in t.byPid ==> t.byPid[p].pid == p
    ensures IsReport(t, roots, expected, report)
    ensures report.TotalBytes() == MemoryOf(t, t.byPid.Keys)
  {
    hide IsNearest, IsClass, Balanced, Total, MemoryOf;
    var owners := RootOwners(roots);
    report := AttributionReport(map[], 0, 0, 0, 0);
    var left := t.byPid.Keys;
    assert Balanced(t, report) by { NothingReported(t, report); }
    while left != {}
      invariant left <= t.byPid.Keys && report.byPid.Keys == t.byPid.Keys - left
      invariant forall p :: p in report.byPid ==> IsClass(t, owners, expected, p, report.byPid[p])
      invariant Balanced(t, report)
      decreases left
    {
      var key :| key in left;
      var sample := t.byPid[key];
      var pid, bytes := sample.pid, sample.AccountedBytes();
      var nearest := NearestAncestorIn(t, pid, owners.Keys);
      NearestIsRoot(t, pid, owners.Keys, nearest);
      var a := match nearest
        case Some(root) =>
          (match owners[root] { case Task(task) => Owned(task) case Shared(service) => SharedBy(service) })
        case None => if pid in expected then Escaped(expected[pid]) else Unknown;
      assert IsClass(t, owners, expected, pid, a) by { ClassOf(t, owners, expected, pid, nearest, a); }
      assert pid == key && bytes == Weight(t, pid);
      EnterBalances(t, report, pid, a);
      ghost var before := report;
      match a {
        case Owned(_) => report := report.(ownedBytes := report.ownedBytes + bytes);
        case SharedBy(_) => report := report.(sharedBytes := report.sharedBytes + bytes);
        case Escaped(_) => report := report.(escapedBytes := report.escapedBytes + bytes);
        case Unknown => report := report.(unknownBytes := report.unknownBytes + bytes);
      }
      report := report.(byPid := report.byPid[pid := a]);
      assert report == Enter(before, pid, a, bytes);
      left := left - {key};
    }
    ClassesAddUp(t, roots, expected, report);
  }

  lemma NothingReported(t: Tree, r: AttributionReport)
    requires r == AttributionReport(map[], 0, 0, 0, 0)
    ensures Balanced(t, r)
  {
    assert r.OwnedPids() == {} && r.SharedPids() == {} && r.EscapedPids() == {} && r.UnknownPids() == {};
  }

  lemma NearestIsRoot(t: Tree, p: Pid, roots: set<Pid>, r: Option<Pid>)
    requires IsNearest(t, p, roots, r)
    ensures r.Some? ==> r.value in roots
  {
  }

  lemma ClassOf(t: Tree, owners: map<Pid, Owner>, expected: map<Pid, string>, p: Pid, r: Option<Pid>, a: Attributed)
    requires IsNearest(t, p, owners.Keys, r) && ClassifiedBy(owners, expected, p, a, r)
    ensures IsClass(t, owners, expected, p, a)
  {
  }

  /** The classification is a function of the snapshot. */
  lemma ReportIsUnique(t: Tree, roots: seq<RootSpec>, expected: map<Pid, string>,
                       r: AttributionReport, s: AttributionReport)
    requires IsReport(t, roots, expected, r) && IsReport(t, roots, expected, s)
    ensures r == s
  {
    var owners := RootOwners(roots);
    forall p | p in t.byPid ensures r.byPid[p] == s.byPid[p] {
      var x: Option<Pid> :| IsNearest(t, p, owners.Keys, x) && ClassifiedBy(owners, expected, p, r.byPid[p], x);
      var y: Option<Pid> :| IsNearest(t, p, owners.Keys, y) && ClassifiedBy(owners, expected, p, s.byPid[p], y);
      NearestIsUnique(t, p, owners.Keys, x, y);
    }
    assert r.byPid == s.byPid;
  }

  /** Registration `i` decides for a process: `n` links up from it is the pid of that registration, no
      root comes before on the way, and the pid was not registered again. */
  ghost predicate Decides(t: Tree, roots: seq<RootSpec>, p: Pid, i: nat, n: nat) {
    && i < |roots| && Up(t, p, n) == Some(roots[i].pid)
    && (forall m: nat, j | m < n && 0 <= j < |roots| :: Up(t, p, m) != Some(roots[j].pid))
    && (forall j | i < j < |roots| :: roots[j].pid != roots[i].pid)
  }

  /** No root is the process or above it. */
  ghost predicate Rootless(t: Tree, roots: seq<RootSpec>, p: Pid) {
    forall j | 0 <= j < |roots| :: !Above(t, p, roots[j].pid)
  }

  lemma {:induction false} LastOwner(roots: seq<RootSpec>, pid: Pid) returns (i: nat)
    requires pid in RootOwners(roots)
    ensures i < |roots| && roots[i].pid == pid && roots[i].owner == RootOwners(roots)[pid]
    ensures forall j | i < j < |roots| :: roots[j].pid != pid
  {
    var n := |roots| - 1;
    if roots[n].pid == pid {
      i := n;
    } else {
      i := LastOwner(roots[..n], pid);
      assert forall j | i < j < n :: roots[j].pid == roots[..n][j].pid;
    }
  }

  /** Every process has one of two verdicts: some registration decides, and then its owner is the
      class; or no root is above it, and then the wrapper reports decide. */
  lemma ClassIs(t: Tree, roots: seq<RootSpec>, expected: map<Pid, string>, r: AttributionReport, p: Pid)
    returns (i: nat, n: nat)
    requires IsReport(t, roots, expected, r) && p in t.byPid
    ensures Decides(t, roots, p, i, n) || Rootless(t, roots, p)
    ensures Decides(t, roots, p, i, n) ==>
      match roots[i].owner
      case Task(task) => r.byPid[p] == Owned(task)
      case Shared(service) => r.byPid[p] == SharedBy(service)
    ensures Rootless(t, roots, p) ==> r.byPid[p] == if p in expected then Escaped(expected[p]) else Unknown
  {
    var owners := RootOwners(roots);
    RootOwnersKeys(roots);
    assert IsClass(t, owners, expected, p, r.byPid[p]);
    var x: Option<Pid> :| IsNearest(t, p, owners.Keys, x) && ClassifiedBy(owners, expected, p, r.byPid[p], x);
    forall j, m: nat | 0 <= j < |roots| && Up(t, p, m) == Some(roots[j].pid) ensures RootAt(t, p, owners.Keys, m) {
    }
    i, n := 0, 0;
    if x.Some? {
      n :| RootAt(t, p, owners.Keys, n) && Up(t, p, n) == x && forall m: nat | m < n :: !RootAt(t, p, owners.Keys, m);
      i := LastOwner(roots, x.value);
      assert Above(t, p, roots[i].pid);
    } else {
      assert forall m: nat :: !RootAt(t, p, owners.Keys, m);
    }
  }

  /** Only one registration decides, so the class is determined. */
  lemma OneDecides(t: Tree, roots: seq<RootSpec>, p: Pid, i: nat, n: nat, j: nat, m: nat)
    requires Decides(t, roots, p, i, n)
    ensures Decides(t, roots, p, j, m) ==> i == j && n == m
    ensures !Rootless(t, roots, p)
  {
    assert Above(t, p, roots[i].pid);
  }

  lemma TotalOfFour(t: Tree, a: set<Pid>, b: set<Pid>, c: set<Pid>, d: set<Pid>)
    requires a * b == {} && (a + b) * c == {} && (a + b + c) * d == {}
    ensures Total(t, a) + Total(t, b) + Total(t, c) + Total(t, d) == Total(t, a + b + c + d)
  {
    assert Total(t, {}) == 0;
    hide Total;
    TotalUnion(t, a, b);
    TotalUnion(t, a + b, c);
    TotalUnion(t, a + b + c, d);
  }

  /** The four classes together count every process exactly once, and each class its own: in PSS where
      a process reports it, else in footprint, else in RSS. */
  lemma ClassesAddUp(t: Tree, roots: seq<RootSpec>, expected: map<Pid, string>, r: AttributionReport)
    requires IsReport(t, roots, expected, r)
    ensures r.TotalBytes() == Total(t, t.byPid.Keys) == MemoryOf(t, t.byPid.Keys)
    ensures r.ownedBytes == MemoryOf(t, r.OwnedPids()) && r.sharedBytes == MemoryOf(t, r.SharedPids())
    ensures r.escapedBytes == MemoryOf(t, r.EscapedPids()) && r.unknownBytes == MemoryOf(t, r.UnknownPids())
  {
    hide Total, MemoryOf;
    TotalIsMemory(t, t.byPid.Keys);
    TotalIsMemory(t, r.OwnedPids());
    TotalIsMemory(t, r.SharedPids());
    TotalIsMemory(t, r.EscapedPids());
    TotalIsMemory(t, r.UnknownPids());
    var a, b, c, d := r.OwnedPids(), r.SharedPids(), r.EscapedPids(), r.UnknownPids();
    assert a + b + c + d == t.byPid.Keys;
    TotalOfFour(t, a, b, c, d);
  }

  // ----- account 3: providers and managers -----

  /** The process is one of the roots, or below one. */
  ghost predicate UnderSome(t: Tree, roots: seq<Pid>, p: Pid) {
    exists i :: 0 <= i < |roots| && Below(t, roots[i], p) && (p == roots[i] ==> p in t.byPid)
  }

  /** Insert a root, if sampled, and everything below it, except what is in `skip`. */
  method InsertSubtree(t: Tree, root: Pid, into: set<Pid>, skip: set<Pid>) returns (out: set<Pid>)
    ensures forall p :: p in out <==> p in into || (p !in skip && UnderSome(t, [root], p))
  {
    out := into;
    assert root in Ball(t, root, 0);
    if root in t.byPid && root !in skip {
      assert UnderSome(t, [root], root) by { assert [root][0] == root; }
      out := out + {root};
    }
    var down := Descendants(t, root);
    for i := 0 to |down|
      invariant forall p :: p in out <==>
        p in into || (p == root && root in t.byPid && root !in skip) || (p !in skip && p in down[..i])
    {
      assert down[..i + 1] == down[..i] + [down[i]];
      if down[i] !in skip {
        out := out + {down[i]};
      }
    }
    assert down[..|down|] == down;
    forall p ensures UnderSome(t, [root], p) <==> (p == root && root in t.byPid) || p in down {
      if p in down { assert [root][0] == root; }
    }
  }

  lemma {:induction false} UnderOneMore(t: Tree, roots: seq<Pid>, i: nat, p: Pid)
    requires i < |roots|
    ensures UnderSome(t, roots[..i + 1], p) <==> UnderSome(t, roots[..i], p) || UnderSome(t, [roots[i]], p)
  {
    var next := roots[..i + 1];
    assert next[i] == roots[i];
    if UnderSome(t, roots[..i], p) {
      var j :| 0 <= j < i && Below(t, roots[..i][j], p) && (p == roots[..i][j] ==> p in t.byPid);
      assert next[j] == roots[..i][j];
    }
    if UnderSome(t, [roots[i]], p) {
      assert [roots[i]][0] == next[i];
    }
    if UnderSome(t, next, p) {
      var j :| 0 <= j <= i && Below(t, next[j], p) && (p == next[j] ==> p in t.byPid);
      if j < i { assert roots[..i][j] == next[j]; } else { assert [roots[i]][0] == next[j]; }
    }
  }

  method Partition(t: Tree, agentRoots: seq<Pid>, managerPids: seq<Pid>) returns (provider: set<Pid>, manager: set<Pid>)
    ensures forall p :: p in provider <==> UnderSome(t, agentRoots, p)
    ensures forall p :: p in manager <==> UnderSome(t, managerPids, p) && !UnderSome(t, agentRoots, p)
  {
    hide UnderSome;
    provider := {};
    UnderNothing(t);
    assert agentRoots[..0] == [] && managerPids[..0] == [];
    for i := 0 to |agentRoots|
      invariant forall p :: p in provider <==> UnderSome(t, agentRoots[..i], p)
    {
      forall p
        ensures UnderSome(t, agentRoots[..i + 1], p)
           <==> UnderSome(t, agentRoots[..i], p) || UnderSome(t, [agentRoots[i]], p)
      {
        UnderOneMore(t, agentRoots, i, p);
      }
      provider := InsertSubtree(t, agentRoots[i], provider, {});
    }
    assert agentRoots[..|agentRoots|] == agentRoots;
    manager := {};
    for i := 0 to |managerPids|
      invariant forall p :: p in manager <==> UnderSome(t, managerPids[..i], p) && p !in provider
    {
      forall p
        ensures UnderSome(t, managerPids[..i + 1], p)
           <==> UnderSome(t, managerPids[..i], p) || UnderSome(t, [managerPids[i]], p)
      {
        UnderOneMore(t, managerPids, i, p);
      }
      manager := InsertSubtree(t, managerPids[i], manager, provider);
    }
    assert managerPids[..|managerPids|] == managerPids;
  }

  lemma UnderNothing(t: Tree)
    ensures forall p :: !UnderSome(t, [], p)
  {
  }

  datatype SampleAccounting = SampleAccounting(
    totalBytes: nat,
    providerBytes: nat,
    managerOverheadBytes: nat,
    providerProcCount: nat,
    managerProcCount: nat)

  method SumAccounted(t: Tree, pids: set<Pid>) returns (sum: nat)
    ensures sum == Total(t, pids) == MemoryOf(t, pids)
  {
    TotalIsMemory(t, pids);
    sum := 0;
    var left := pids;
    while left != {}
      invariant sum + Total(t, left) == Total(t, pids)
      decreases left
    {
      var p :| p in left;
      TotalRemove(t, left, p);
      if p in t.byPid {
        sum := sum + t.byPid[p].AccountedBytes();
      }
      left := left - {p};
    }
  }

  /** Every pid the tree mentions. */
  function Mentioned(t: Tree): set<Pid> {
    t.byPid.Keys + set p, k | p in t.kidsByPid && k in t.kidsByPid[p] :: k
  }

  ghost function Providers(t: Tree, agentRoots: seq<Pid>): set<Pid> {
    set p | p in Mentioned(t) && UnderSome(t, agentRoots, p)
  }

  ghost function Managers(t: Tree, agentRoots: seq<Pid>, managerPids: seq<Pid>): set<Pid> {
    set p | p in Mentioned(t) && UnderSome(t, managerPids, p) && !UnderSome(t, agentRoots, p)
  }

  lemma UnderIsMentioned(t: Tree, roots: seq<Pid>, p: Pid)
    requires UnderSome(t, roots, p)
    ensures p in Mentioned(t)
  {
    var i :| 0 <= i < |roots| && Below(t, roots[i], p) && (p == roots[i] ==> p in t.byPid);
    var n: nat :| p in Ball(t, roots[i], n);
    ClosedHoldsBall(t, roots[i], n, {roots[i]} + Mentioned(t));
  }

  /** The account of one snapshot: each figure is the total, or the size, of its set. */
  ghost predicate IsAccounting(t: Tree, agentRoots: seq<Pid>, managerPids: seq<Pid>, a: SampleAccounting) {
    var provider, manager := Providers(t, agentRoots), Managers(t, agentRoots, managerPids);
    && a.providerBytes == Total(t, provider) && a.providerProcCount == |provider|
    && a.managerOverheadBytes == Total(t, manager) && a.managerProcCount == |manager|
    && a.totalBytes == Total(t, provider + manager)
  }

  /** No process is both, so the total counts each once, in the same sums. */
  method Classify(t: Tree, agentRoots: seq<Pid>, managerPids: seq<Pid>) returns (a: SampleAccounting)
    ensures IsAccounting(t, agentRoots, managerPids, a)
    ensures Providers(t, agentRoots) !! Managers(t, agentRoots, managerPids)
    ensures a.providerBytes == MemoryOf(t, Providers(t, agentRoots))
    ensures a.managerOverheadBytes == MemoryOf(t, Managers(t, agentRoots, managerPids))
    ensures a.totalBytes == MemoryOf(t, Providers(t, agentRoots) + Managers(t, agentRoots, managerPids))
    ensures a.providerProcCount == |Providers(t, agentRoots)|
    ensures a.managerProcCount == |Managers(t, agentRoots, managerPids)|
  {
    hide Total, MemoryOf, UnderSome, Mentioned;
    var provider, manager := Partition(t, agentRoots, managerPids);
    forall roots, p | UnderSome(t, roots, p) ensures p in Mentioned(t) {
      UnderIsMentioned(t, roots, p);
    }
    assert provider == Providers(t, agentRoots) && manager == Managers(t, agentRoots, managerPids);
    var providerBytes := SumAccounted(t, provider);
    var managerBytes := SumAccounted(t, manager);
    TotalUnion(t, provider, manager);
    TotalIsMemory(t, provider + manager);
    assert provider * manager == {};
    TotalOfNothing(t);
    a := SampleAccounting(providerBytes + managerBytes, providerBytes, managerBytes, |provider|, |manager|);
  }

  lemma TotalOfNothing(t: Tree)
    ensures Total(t, {}) == 0
  {
  }

  // ----- the accounts agree -----

  function PidsOf(roots: seq<RootSpec>): seq<Pid> {
    seq(|roots|, i requires 0 <= i < |roots| => roots[i].pid)
  }

  /** The process is a sampled root, or below one. */
  ghost predicate UnderSampled(t: Tree, roots: seq<Pid>, p: Pid) {
    exists i :: 0 <= i < |roots| && roots[i] in t.byPid && Below(t, roots[i], p)
  }

  /** Every child of a root that was not sampled is also under one that was. */
  ghost predicate OrphansCovered(t: Tree, roots: seq<Pid>) {
    forall i, c: Pid :: 0 <= i < |roots| && roots[i] !in t.byPid && c in t.Children(roots[i]) ==>
      UnderSampled(t, roots, c)
  }

  /** A process has a nearest root exactly when it is under a sampled root. */
  lemma NearestIffUnder(t: Tree, roots: seq<Pid>, rootSet: set<Pid>, p: Pid, r: Option<Pid>)
    requires Consistent(t) && rootSet == (set i | 0 <= i < |roots| :: roots[i])
    requires p in t.byPid && IsNearest(t, p, rootSet, r)
    ensures r.Some? <==> UnderSampled(t, roots, p)
  {
    if r.Some? {
      var n: nat :| RootAt(t, p, rootSet, n) && Up(t, p, n) == r;
      var i :| 0 <= i < |roots| && roots[i] == r.value;
      ClosedHoldsUp(t, p, n, t.byPid.Keys);
      BelowIffAbove(t, roots[i], p);
    }
    if UnderSampled(t, roots, p) {
      var i :| 0 <= i < |roots| && roots[i] in t.byPid && Below(t, roots[i], p);
      BelowIffAbove(t, roots[i], p);
      var n: nat :| Up(t, p, n) == Some(roots[i]);
      assert RootAt(t, p, rootSet, n);
    }
  }

  /** Everything under a root was sampled, the root itself perhaps excepted. */
  lemma UnderIsSampled(t: Tree, roots: seq<Pid>, p: Pid)
    requires Consistent(t) && UnderSome(t, roots, p)
    ensures p in t.byPid
  {
    var i :| 0 <= i < |roots| && Below(t, roots[i], p) && (p == roots[i] ==> p in t.byPid);
    if p != roots[i] {
      var n: nat :| p in Ball(t, roots[i], n);
      ClosedHoldsBall(t, roots[i], n, {roots[i]} + t.byPid.Keys);
    }
  }

  lemma SampledIsUnder(t: Tree, roots: seq<Pid>, p: Pid)
    requires p in t.byPid && UnderSampled(t, roots, p)
    ensures UnderSome(t, roots, p)
  {
  }

  /** Under some root means under a sampled one, for every process, exactly when it does for the
      children of the unsampled roots. */
  lemma CoveredIff(t: Tree, roots: seq<Pid>)
    requires Consistent(t)
    ensures OrphansCovered(t, roots) <==> forall p :: UnderSome(t, roots, p) ==> UnderSampled(t, roots, p)
  {
    if OrphansCovered(t, roots) {
      forall p | UnderSome(t, roots, p) ensures UnderSampled(t, roots, p) {
        CoveredProcess(t, roots, p);
      }
    }
    if forall p :: UnderSome(t, roots, p) ==> UnderSampled(t, roots, p) {
      forall i, c: Pid | 0 <= i < |roots| && roots[i] !in t.byPid && c in t.Children(roots[i])
        ensures UnderSampled(t, roots, c)
      {
        ChildIsBelow(t, roots[i], c);
        assert UnderSome(t, roots, c);
      }
    }
  }

  lemma CoveredProcess(t: Tree, roots: seq<Pid>, p: Pid)
    requires Consistent(t) && OrphansCovered(t, roots) && UnderSome(t, roots, p)
    ensures UnderSampled(t, roots, p)
  {
    var i :| 0 <= i < |roots| && Below(t, roots[i], p) && (p == roots[i] ==> p in t.byPid);
    if roots[i] !in t.byPid {
      var n: nat :| p in Ball(t, roots[i], n);
      var c := FirstStep(t, roots[i], p, n);
      assert UnderSampled(t, roots, c);
      var j :| 0 <= j < |roots| && roots[j] in t.byPid && Below(t, roots[j], c);
      BelowChain(t, roots[j], c, p);
    }
  }

  /** Owned and shared processes are those under a sampled root. */
  lemma NamedAreUnderSampled(t: Tree, roots: seq<RootSpec>, expected: map<Pid, string>, r: AttributionReport)
    requires Consistent(t) && IsReport(t, roots, expected, r)
    ensures forall p ::
      p in r.OwnedPids() + r.SharedPids() <==> p in t.byPid && UnderSampled(t, PidsOf(roots), p)
  {
    hide IsClass, UnderSampled, Balanced, Consistent;
    var owners := RootOwners(roots);
    OwnersAreRoots(roots);
    forall p | p in t.byPid
      ensures p in r.OwnedPids() + r.SharedPids() <==> UnderSampled(t, PidsOf(roots), p)
    {
      NamedIffUnder(t, roots, owners, expected, p, r.byPid[p]);
    }
  }

  lemma ProvidersAreSampled(t: Tree, roots: seq<Pid>)
    requires Consistent(t)
    ensures forall p :: p in Providers(t, roots) <==> UnderSome(t, roots, p)
    ensures Providers(t, roots) <= t.byPid.Keys
  {
    hide UnderSome, Mentioned, Consistent;
    forall p | UnderSome(t, roots, p) ensures p in t.byPid && p in Mentioned(t) {
      UnderIsSampled(t, roots, p);
      UnderIsMentioned(t, roots, p);
    }
  }

  /** For any roots, what is owned by a task or shared by a service is at most what `classify` calls
      a provider; the two are the same processes exactly when every child of an unsampled root is
      also under a sampled one. */
  lemma OwnersAgreeIff(t: Tree, roots: seq<RootSpec>, expected: map<Pid, string>, r: AttributionReport)
    requires Consistent(t) && IsReport(t, roots, expected, r)
    ensures r.OwnedPids() + r.SharedPids() <= Providers(t, PidsOf(roots))
    ensures r.OwnedPids() + r.SharedPids() == Providers(t, PidsOf(roots)) <==> OrphansCovered(t, PidsOf(roots))
  {
    hide Consistent, IsReport, UnderSome, UnderSampled, OrphansCovered, Providers;
    var pids := PidsOf(roots);
    NamedAreUnderSampled(t, roots, expected, r);
    ProvidersAreSampled(t, pids);
    CoveredIff(t, pids);
    forall p | p in t.byPid && UnderSampled(t, pids, p) ensures UnderSome(t, pids, p) {
      SampledIsUnder(t, pids, p);
    }
    if r.OwnedPids() + r.SharedPids() == Providers(t, pids) {
      forall p | UnderSome(t, pids, p) ensures UnderSampled(t, pids, p) {
        assert p in Providers(t, pids);
      }
    }
  }

  lemma TotalOfMore(t: Tree, s: set<Pid>, more: set<Pid>)
    requires s <= more
    ensures Total(t, s) <= Total(t, more)
    ensures s != more && (forall p :: p in more ==> Weight(t, p) > 0) ==> Total(t, s) < Total(t, more)
  {
    var rest := more - s;
    assert s + rest == more && s * rest == {};
    TotalOfNothing(t);
    TotalUnion(t, s, rest);
    if s != more && forall p :: p in more ==> Weight(t, p) > 0 {
      var p :| p in rest;
      TotalPositive(t, rest, p);
    }
  }

  /** And byte for byte: the owner account never exceeds the provider account, agrees with it under
      that condition, and, where every process has some memory, only then. */
  lemma OwnedBytesIff(t: Tree, roots: seq<RootSpec>, expected: map<Pid, string>, r: AttributionReport,
                      managerPids: seq<Pid>, a: SampleAccounting)
    requires Consistent(t) && IsReport(t, roots, expected, r) && IsAccounting(t, PidsOf(roots), managerPids, a)
    ensures r.ownedBytes + r.sharedBytes <= a.providerBytes
    ensures OrphansCovered(t, PidsOf(roots)) ==> r.ownedBytes + r.sharedBytes == a.providerBytes
    ensures (forall p :: p in t.byPid ==> Weight(t, p) > 0) ==>
      (r.ownedBytes + r.sharedBytes == a.providerBytes <==> OrphansCovered(t, PidsOf(roots)))
  {
    var named, provider := r.OwnedPids() + r.SharedPids(), Providers(t, PidsOf(roots));
    hide IsClass, UnderSome, Total, Providers, Managers, OrphansCovered, Consistent, Weight;
    OwnersAgreeIff(t, roots, expected, r);
    ProvidersAreSampled(t, PidsOf(roots));
    TotalUnion(t, r.OwnedPids(), r.SharedPids());
    assert r.OwnedPids() * r.SharedPids() == {};
    TotalOfNothing(t);
    TotalOfMore(t, named, provider);
  }

  /** With sampled roots the owner account and the provider account agree, process for process and
      byte for byte. With task roots only, the owned bytes alone are the provider bytes. */
  lemma OwnersAgreeWithProviders(t: Tree, roots: seq<RootSpec>, expected: map<Pid, string>, r: AttributionReport,
                                 managerPids: seq<Pid>, a: SampleAccounting)
    requires Consistent(t) && forall i :: 0 <= i < |roots| ==> roots[i].pid in t.byPid
    requires IsReport(t, roots, expected, r)
    requires IsAccounting(t, PidsOf(roots), managerPids, a)
    ensures r.OwnedPids() + r.SharedPids() == Providers(t, PidsOf(roots))
    ensures r.ownedBytes + r.sharedBytes == a.providerBytes
    ensures (forall i :: 0 <= i < |roots| ==> roots[i].owner.Task?) ==>
      r.ownedBytes == a.providerBytes && r.sharedBytes == 0
  {
    assert OrphansCovered(t, PidsOf(roots));
    hide IsClass, UnderSome, Total, Providers, Managers, OrphansCovered, Consistent;
    OwnersAgreeIff(t, roots, expected, r);
    OwnedBytesIff(t, roots, expected, r, managerPids, a);
    if forall i :: 0 <= i < |roots| ==> roots[i].owner.Task? {
      TotalOfNothing(t);
      NothingShared(t, roots, expected, r);
    }
  }

  lemma OwnersAreRoots(roots: seq<RootSpec>)
    ensures RootOwners(roots).Keys == set i | 0 <= i < |PidsOf(roots)| :: PidsOf(roots)[i]
  {
    RootOwnersKeys(roots);
    forall i | 0 <= i < |roots| ensures roots[i].pid == PidsOf(roots)[i] && roots[i].pid in RootOwners(roots).Keys {
    }
  }

  lemma NothingShared(t: Tree, roots: seq<RootSpec>, expected: map<Pid, string>, r: AttributionReport)
    requires IsReport(t, roots, expected, r)
    requires forall i :: 0 <= i < |roots| ==> roots[i].owner.Task?
    ensures r.SharedPids() == {}
  {
    TaskOwnersOnly(roots);
    forall p | p in t.byPid ensures !r.byPid[p].SharedBy? {
      assert IsClass(t, RootOwners(roots), expected, p, r.byPid[p]);
    }
  }

  lemma NamedIffUnder(t: Tree, roots: seq<RootSpec>, owners: map<Pid, Owner>, expected: map<Pid, string>,
                      p: Pid, a: Attributed)
    requires Consistent(t) && p in t.byPid
    requires owners.Keys == set i | 0 <= i < |PidsOf(roots)| :: PidsOf(roots)[i]
    requires IsClass(t, owners, expected, p, a)
    ensures a.Owned? || a.SharedBy? <==> UnderSampled(t, PidsOf(roots), p)
  {
    var x: Option<Pid> :| IsNearest(t, p, owners.Keys, x) && ClassifiedBy(owners, expected, p, a, x);
    NearestIffUnder(t, PidsOf(roots), owners.Keys, p, x);
  }

  lemma {:induction false} TaskOwnersOnly(roots: seq<RootSpec>)
    requires forall i :: 0 <= i < |roots| ==> roots[i].owner.Task?
    ensures forall q :: q in RootOwners(roots) ==> RootOwners(roots)[q].Task?
  {
    if roots != [] { TaskOwnersOnly(roots[..|roots| - 1]); }
  }

  /** The subtree account of several roots, added up. */
  ghost function SumOfSubtrees(t: Tree, roots: seq<Pid>): nat {
    if roots == [] then 0 else SumOfSubtrees(t, roots[..|roots| - 1]) + Total(t, Subtree(t, roots[|roots| - 1]))
  }

  ghost function UnionOfSubtrees(t: Tree, roots: seq<Pid>): set<Pid> {
    if roots == [] then {} else UnionOfSubtrees(t, roots[..|roots| - 1]) + Subtree(t, roots[|roots| - 1])
  }

  lemma {:induction false} UnionIsUnder(t: Tree, roots: seq<Pid>, p: Pid)
    ensures p in UnionOfSubtrees(t, roots) <==> p in t.byPid && UnderSome(t, roots, p)
  {
    if roots != [] {
      var n := |roots| - 1;
      UnionIsUnder(t, roots[..n], p);
      UnderOneMore(t, roots, n, p);
      assert roots[..n + 1] == roots;
      assert UnderSome(t, [roots[n]], p) <==> Below(t, roots[n], p) && (p == roots[n] ==> p in t.byPid) by {
        assert [roots[n]][0] == roots[n];
      }
    }
  }

  /** No root is another one, or under another one. */
  ghost predicate NoNesting(t: Tree, roots: seq<Pid>) {
    forall i, j :: 0 <= i < |roots| && 0 <= j < |roots| && i != j ==> !Below(t, roots[i], roots[j])
  }

  /** Roots with a common descendant are nested: the upward path is a line. */
  lemma CommonMeansNested(t: Tree, q: Pid, r: Pid, p: Pid)
    requires Consistent(t) && q in t.byPid && r in t.byPid && Below(t, q, p) && Below(t, r, p)
    ensures Below(t, q, r) || Below(t, r, q)
  {
    BelowIffAbove(t, q, p);
    BelowIffAbove(t, r, p);
    var m: nat :| Up(t, p, m) == Some(q);
    var n: nat :| Up(t, p, n) == Some(r);
    if m <= n {
      UpSplits(t, p, m, n - m);
      assert Above(t, q, r);
      BelowIffAbove(t, r, q);
    } else {
      UpSplits(t, p, n, m - n);
      assert Above(t, r, q);
      BelowIffAbove(t, q, r);
    }
  }

  /** How much adding up the subtrees counts more than once. */
  ghost function Overlap(t: Tree, roots: seq<Pid>): int {
    SumOfSubtrees(t, roots) - Total(t, UnionOfSubtrees(t, roots))
  }

  lemma OverlapGrows(t: Tree, init: seq<Pid>, last: Pid)
    ensures Overlap(t, init + [last]) == Overlap(t, init) + Total(t, UnionOfSubtrees(t, init) * Subtree(t, last))
  {
    var all := init + [last];
    assert all[..|init|] == init;
    hide Total, Subtree;
    TotalUnion(t, UnionOfSubtrees(t, init), Subtree(t, last));
  }

  ghost predicate PositiveRoots(t: Tree, roots: seq<Pid>) {
    forall i :: 0 <= i < |roots| ==> Weight(t, roots[i]) > 0
  }

  lemma PositiveRoot(t: Tree, roots: seq<Pid>, p: Pid)
    requires PositiveRoots(t, roots) && p in roots
    ensures Weight(t, p) > 0
  {
  }

  lemma PositivePrefix(t: Tree, init: seq<Pid>, last: Pid)
    requires PositiveRoots(t, init + [last])
    ensures PositiveRoots(t, init)
  {
    forall i | 0 <= i < |init| ensures Weight(t, init[i]) > 0 {
      assert (init + [last])[i] == init[i];
    }
  }

  lemma {:induction false} OverlapIff(t: Tree, roots: seq<Pid>)
    requires Consistent(t) && forall i :: 0 <= i < |roots| ==> roots[i] in t.byPid
    ensures Overlap(t, roots) >= 0
    ensures NoNesting(t, roots) ==> Overlap(t, roots) == 0
    ensures PositiveRoots(t, roots) ==> (Overlap(t, roots) == 0 <==> NoNesting(t, roots))
  {
    if roots == [] {
      assert SumOfSubtrees(t, []) == 0 && UnionOfSubtrees(t, []) == {};
      TotalOfNothing(t);
    } else {
      var n := |roots| - 1;
      var init, last := roots[..n], roots[n];
      assert roots == init + [last];
      OverlapIff(t, init);
      hide *;
      var common := UnionOfSubtrees(t, init) * Subtree(t, last);
      OverlapGrows(t, init, last);
      NestingStep(t, init, last);
      TotalOfNothing(t);
      if PositiveRoots(t, roots) {
        PositivePrefix(t, init, last);
        if NoNesting(t, init) && !NoNesting(t, roots) {
          var p :| p in common && (p == last || p in init);
          PositiveRoot(t, roots, p);
          TotalPositive(t, common, p);
        }
      }
    }
  }

  /** Adding up the subtrees of sampled roots never undercounts the providers, and with roots of
      positive size it is exact if and only if no root is under another. */
  lemma {:induction false} SubtreesAgreeIff(t: Tree, roots: seq<Pid>)
    requires Consistent(t) && forall i :: 0 <= i < |roots| ==> roots[i] in t.byPid
    ensures SumOfSubtrees(t, roots) >= Total(t, UnionOfSubtrees(t, roots))
    ensures NoNesting(t, roots) ==> SumOfSubtrees(t, roots) == Total(t, UnionOfSubtrees(t, roots))
    ensures (forall i :: 0 <= i < |roots| ==> Weight(t, roots[i]) > 0) ==>
      (SumOfSubtrees(t, roots) == Total(t, UnionOfSubtrees(t, roots)) <==> NoNesting(t, roots))
  {
    hide Total, UnionOfSubtrees, SumOfSubtrees, NoNesting, Consistent, Weight;
    OverlapIff(t, roots);
  }

  /** One more root overlaps the earlier ones exactly when it nests with one of them, and then the
      lower of the two roots is itself in the overlap. */
  lemma NestingStep(t: Tree, init: seq<Pid>, last: Pid)
    requires Consistent(t) && last in t.byPid && forall i :: 0 <= i < |init| ==> init[i] in t.byPid
    ensures var common := UnionOfSubtrees(t, init) * Subtree(t, last);
      if NoNesting(t, init + [last]) then NoNesting(t, init) && common == {}
      else !NoNesting(t, init) || exists p :: p in common && (p == last || p in init)
  {
    var all, u, s := init + [last], UnionOfSubtrees(t, init), Subtree(t, last);
    var n := |init|;
    if NoNesting(t, all) {
      forall i, j | 0 <= i < n && 0 <= j < n && i != j ensures !Below(t, init[i], init[j]) {
        assert all[i] == init[i] && all[j] == init[j];
      }
      forall p | p in u && p in s ensures false {
        UnionIsUnder(t, init, p);
        var i :| 0 <= i < n && Below(t, init[i], p);
        assert !Below(t, all[i], all[n]) && !Below(t, all[n], all[i]);
        CommonMeansNested(t, all[i], all[n], p);
      }
    } else if NoNesting(t, init) {
      assert forall i, j :: 0 <= i < n && 0 <= j < n && i != j ==>
        all[i] == init[i] && all[j] == init[j] && !Below(t, all[i], all[j]);
      var i, j :| 0 <= i <= n && 0 <= j <= n && i != j && Below(t, all[i], all[j]);
      var p := all[j];
      assert p in Ball(t, p, 0);
      UnionIsUnder(t, init, p);
      if j == n {
        assert init[i] == all[i];
        assert UnderSome(t, init, p);
        assert p in u * s;
      } else {
        assert init[j] == p;
        assert UnderSome(t, init, p);
        assert p in u * s && p in init;
      }
    }
  }

  lemma ProvidersAreUnion(t: Tree, roots: seq<Pid>)
    requires Consistent(t)
    ensures UnionOfSubtrees(t, roots) == Providers(t, roots)
  {
    hide UnderSome, UnionOfSubtrees, Providers, Consistent;
    ProvidersAreSampled(t, roots);
    forall p ensures p in UnionOfSubtrees(t, roots) <==> p in Providers(t, roots) {
      UnionIsUnder(t, roots, p);
    }
  }

  /** All three accounts agree on task roots none of which is under another. */
  lemma ThreeAccountsAgree(t: Tree, roots: seq<RootSpec>, expected: map<Pid, string>, r: AttributionReport,
                           managerPids: seq<Pid>, a: SampleAccounting)
    requires Consistent(t) && forall i :: 0 <= i < |roots| ==> roots[i].pid in t.byPid && roots[i].owner.Task?
    requires IsReport(t, roots, expected, r)
    requires IsAccounting(t, PidsOf(roots), managerPids, a)
    ensures r.ownedBytes == a.providerBytes <= SumOfSubtrees(t, PidsOf(roots))
    ensures NoNesting(t, PidsOf(roots)) ==> SumOfSubtrees(t, PidsOf(roots)) == r.ownedBytes
  {
    hide Total, NoNesting, UnionOfSubtrees, SumOfSubtrees, Weight, UnderSome, Consistent, IsReport, Providers, Managers;
    OwnersAgreeWithProviders(t, roots, expected, r, managerPids, a);
    SubtreesAgreeIff(t, PidsOf(roots));
    ProvidersAreUnion(t, PidsOf(roots));
  }
}
