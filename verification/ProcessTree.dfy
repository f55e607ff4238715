/** The process tree of one snapshot (crates/memmux-metrics/src/tree.rs) and the kill list drawn
    from it (crates/memmux-metrics/src/terminate.rs). Parent links may form cycles, point at
    themselves or name processes that were not sampled. */
module ProcessTree {
  import opened Prelude

  type Pid = nat

  datatype ProcessSample = ProcessSample(
    pid: Pid,
    ppid: Pid,
    rssBytes: nat,
    pssBytes: Option<nat>,
    physFootprintBytes: Option<nat>)
  {
    /** PSS if known, else the physical footprint, else RSS. */
    function AccountedBytes(): nat {
      match pssBytes
      case Some(b) => b
      case None => match physFootprintBytes { case Some(b) => b case None => rssBytes }
    }
  }

  datatype Tree = Tree(byPid: map<Pid, ProcessSample>, kidsByPid: map<Pid, seq<Pid>>) {
    function Children(p: Pid): seq<Pid> {
      KidsOf(kidsByPid, p)
    }

    /** The parent of a sampled process, when it was sampled too. */
    function Parent(p: Pid): Option<Pid> {
      if p in byPid && byPid[p].ppid in byPid then Some(byPid[p].ppid) else None
    }
  }

  function KidsOf(kids: map<Pid, seq<Pid>>, p: Pid): seq<Pid> {
    if p in kids then kids[p] else []
  }

  // ----- building the tree -----

  ghost predicate Ascending(s: seq<Pid>) {
    forall i, j :: 0 <= i < j < |s| ==> s[i] < s[j]
  }

  function SortedInsert(s: seq<Pid>, x: Pid): (r: seq<Pid>)
    requires Ascending(s)
    ensures Ascending(r) && forall y :: y in r <==> y == x || y in s
  {
    if s == [] || x < s[0] then [x] + s
    else if x == s[0] then s
    else
      var rest := SortedInsert(s[1..], x);
      assert forall y :: y in rest ==> s[0] < y;
      ConsAscending(s[0], rest);
      [s[0]] + rest
  }

  lemma ConsAscending(x: Pid, s: seq<Pid>)
    requires Ascending(s) && forall y :: y in s ==> x < y
    ensures Ascending([x] + s)
  {
    forall j | 0 < j < |[x] + s| ensures x < ([x] + s)[j] {
      assert ([x] + s)[j] == s[j - 1] && s[j - 1] in s;
    }
  }

  /** `sort_unstable` followed by `dedup`. */
  function SortDedup(s: seq<Pid>): (r: seq<Pid>)
    ensures Ascending(r) && forall y :: y in r <==> y in s
  {
    if s == [] then [] else SortedInsert(SortDedup(s[1..]), s[0])
  }

  /** The last sample of a pid. */
  ghost predicate IsLast(samples: seq<ProcessSample>, p: Pid, s: ProcessSample) {
    exists i :: 0 <= i < |samples| && samples[i] == s && s.pid == p &&
      forall j :: i < j < |samples| ==> samples[j].pid != p
  }

  ghost predicate Claims(samples: seq<ProcessSample>, child: Pid, parent: Pid) {
    exists i :: 0 <= i < |samples| && samples[i].pid == child && samples[i].ppid == parent
  }

  ghost predicate IsTreeOf(t: Tree, samples: seq<ProcessSample>) {
    && (forall p :: p in t.byPid <==> exists i :: 0 <= i < |samples| && samples[i].pid == p)
    && (forall p :: p in t.byPid ==> IsLast(samples, p, t.byPid[p]))
    && (forall p :: Ascending(t.Children(p)))
    && (forall p: Pid, c: Pid :: c in t.Children(p) <==> Claims(samples, c, p))
  }

  method FromSamples(samples: seq<ProcessSample>) returns (t: Tree)
    ensures IsTreeOf(t, samples)
  {
    hide IsLast, Claims;
    NothingClaimed();
    var byPid: map<Pid, ProcessSample> := map[];
    var kids: map<Pid, seq<Pid>> := map[];
    assert samples[..0] == [];
    for n := 0 to |samples|
      invariant forall p :: p in byPid <==> exists i :: 0 <= i < n && samples[i].pid == p
      invariant forall p :: p in byPid ==> IsLast(samples[..n], p, byPid[p])
      invariant KidsAre(kids, samples[..n])
    {
      var s := samples[n];
      OneMoreSample(samples, n);
      OneMoreKid(kids, samples, n);
      kids := kids[s.ppid := KidsOf(kids, s.ppid) + [s.pid]];
      byPid := byPid[s.pid := s];
    }
    assert samples[..|samples|] == samples;
    t := Tree(byPid, map p | p in kids :: SortDedup(kids[p]));
    forall p: Pid ensures Ascending(t.Children(p)) && forall c: Pid :: c in t.Children(p) <==> c in KidsOf(kids, p) {
    }
  }

  ghost predicate KidsAre(kids: map<Pid, seq<Pid>>, samples: seq<ProcessSample>) {
    forall p: Pid, c: Pid :: c in KidsOf(kids, p) <==> Claims(samples, c, p)
  }

  lemma NothingClaimed()
    ensures KidsAre(map[], [])
  {
  }

  lemma OneMoreKid(kids: map<Pid, seq<Pid>>, samples: seq<ProcessSample>, n: nat)
    requires n < |samples| && KidsAre(kids, samples[..n])
    ensures var s := samples[n]; KidsAre(kids[s.ppid := KidsOf(kids, s.ppid) + [s.pid]], samples[..n + 1])
  {
    hide Claims;
    var s := samples[n];
    var kids' := kids[s.ppid := KidsOf(kids, s.ppid) + [s.pid]];
    forall p: Pid, c: Pid ensures c in KidsOf(kids', p) <==> Claims(samples[..n + 1], c, p) {
      OneMoreClaim(samples, n, p, c);
      assert c in KidsOf(kids', p) <==> c in KidsOf(kids, p) || (c == s.pid && p == s.ppid);
    }
  }

  lemma OneMoreSample(samples: seq<ProcessSample>, n: nat)
    requires n < |samples|
    ensures IsLast(samples[..n + 1], samples[n].pid, samples[n])
    ensures forall p: Pid, x :: IsLast(samples[..n], p, x) && p != samples[n].pid ==> IsLast(samples[..n + 1], p, x)
  {
    var s, past, upTo := samples[n], samples[..n], samples[..n + 1];
    assert upTo[n] == s;
    forall p: Pid, x | IsLast(past, p, x) && p != s.pid ensures IsLast(upTo, p, x) {
      var i :| 0 <= i < n && past[i] == x && x.pid == p && forall j :: i < j < n ==> past[j].pid != p;
      assert upTo[i] == x;
      assert forall j :: i < j < n ==> upTo[j] == past[j];
    }
  }

  lemma OneMoreClaim(samples: seq<ProcessSample>, n: nat, p: Pid, c: Pid)
    requires n < |samples|
    ensures Claims(samples[..n + 1], c, p)
       <==> Claims(samples[..n], c, p) || (samples[n].pid == c && samples[n].ppid == p)
  {
    var s, past, upTo := samples[n], samples[..n], samples[..n + 1];
    assert upTo[n] == s;
    if i :| 0 <= i < |upTo| && upTo[i].pid == c && upTo[i].ppid == p {
      if i < n { assert past[i].pid == c; }
    }
    if i :| 0 <= i < n && past[i].pid == c && past[i].ppid == p {
      assert upTo[i].pid == c;
    }
  }

  /** Child lists and parent links say the same. */
  ghost predicate Linked(t: Tree) {
    && (forall p :: p in t.byPid ==> t.byPid[p].pid == p)
    && (forall p: Pid, c: Pid :: c in t.Children(p) <==> c in t.byPid && t.byPid[c].ppid == p)
  }

  /** They do exactly when no pid was sampled under two different parents; in particular when
      the pids are distinct. */
  lemma LinkedIff(t: Tree, samples: seq<ProcessSample>)
    requires IsTreeOf(t, samples)
    ensures Linked(t) <==> forall p: Pid, q: Pid, c: Pid :: Claims(samples, c, p) && Claims(samples, c, q) ==> p == q
  {
    forall c | c in t.byPid ensures Claims(samples, c, t.byPid[c].ppid) && t.byPid[c].pid == c {
      assert IsLast(samples, c, t.byPid[c]);
    }
    if Linked(t) {
      forall p: Pid, q: Pid, c: Pid | Claims(samples, c, p) && Claims(samples, c, q) ensures p == q {
        assert c in t.Children(p) && c in t.Children(q);
        assert t.byPid[c].ppid == p && t.byPid[c].ppid == q;
      }
    }
    forall p: Pid, c: Pid | Claims(samples, c, p) ensures c in t.byPid {
      var i :| 0 <= i < |samples| && samples[i].pid == c && samples[i].ppid == p;
    }
  }

  lemma DistinctPidsLink(t: Tree, samples: seq<ProcessSample>)
    requires IsTreeOf(t, samples)
    requires forall i, j :: 0 <= i < j < |samples| ==> samples[i].pid != samples[j].pid
    ensures Linked(t) && Consistent(t)
  {
    LinkedIff(t, samples);
    LinkedIsConsistent(t);
  }

  // ----- downwards: children of children -----

  function Kids(t: Tree, s: set<Pid>): set<Pid> {
    set v, k | v in s && k in t.Children(v) :: k
  }

  /** What at most `n` child links lead to from `r`. */
  function Ball(t: Tree, r: Pid, n: nat): set<Pid> {
    if n == 0 then {r} else Ball(t, r, n - 1) + Kids(t, Ball(t, r, n - 1))
  }

  ghost predicate Below(t: Tree, r: Pid, d: Pid) {
    exists n: nat :: d in Ball(t, r, n)
  }

  lemma {:induction false} BallGrows(t: Tree, r: Pid, m: nat, n: nat)
    requires m <= n
    ensures Ball(t, r, m) <= Ball(t, r, n)
  {
    if m < n { BallGrows(t, r, m, n - 1); }
  }

  lemma {:induction false} ClosedHoldsBall(t: Tree, r: Pid, n: nat, s: set<Pid>)
    requires r in s && Kids(t, s) <= s
    ensures Ball(t, r, n) <= s
  {
    if n > 0 {
      ClosedHoldsBall(t, r, n - 1, s);
      assert Kids(t, Ball(t, r, n - 1)) <= Kids(t, s);
    }
  }

  lemma LastStep(t: Tree, r: Pid, d: Pid, n: nat) returns (v: Pid)
    requires n > 0 && d in Ball(t, r, n) && d !in Ball(t, r, n - 1)
    ensures v in Ball(t, r, n - 1) && d in t.Children(v)
  {
    v :| v in Ball(t, r, n - 1) && d in t.Children(v);
  }

  lemma NoStep(t: Tree, r: Pid)
    ensures Ball(t, r, 0) == {r}
  {
  }

  lemma OneStepMore(t: Tree, a: Pid, v: Pid, d: Pid, n: nat)
    requires v in Ball(t, a, n) && d in t.Children(v)
    ensures d in Ball(t, a, n + 1)
  {
  }

  lemma {:induction false} BallChain(t: Tree, a: Pid, b: Pid, d: Pid, m: nat, n: nat)
    requires b in Ball(t, a, m) && d in Ball(t, b, n)
    ensures d in Ball(t, a, m + n)
    decreases n
  {
    hide Ball;
    if n == 0 {
      NoStep(t, b);
    } else if d in Ball(t, b, n - 1) {
      BallChain(t, a, b, d, m, n - 1);
      BallGrows(t, a, m + n - 1, m + n);
    } else {
      var v := LastStep(t, b, d, n);
      BallChain(t, a, b, v, m, n - 1);
      OneStepMore(t, a, v, d, m + n - 1);
    }
  }

  lemma BelowChain(t: Tree, a: Pid, b: Pid, d: Pid)
    requires Below(t, a, b) && Below(t, b, d)
    ensures Below(t, a, d)
  {
    var m: nat :| b in Ball(t, a, m);
    var n: nat :| d in Ball(t, b, n);
    BallChain(t, a, b, d, m, n);
  }

  /** Whatever else is below a process is below one of its children. */
  lemma {:induction false} FirstStep(t: Tree, r: Pid, d: Pid, n: nat) returns (c: Pid)
    requires d in Ball(t, r, n) && d != r
    ensures c in t.Children(r) && Below(t, c, d)
    decreases n
  {
    hide Ball;
    NoStep(t, r);
    NoStep(t, d);
    if d in Ball(t, r, n - 1) {
      c := FirstStep(t, r, d, n - 1);
    } else {
      var v := LastStep(t, r, d, n);
      if v == r {
        c := d;
      } else {
        c := FirstStep(t, r, v, n - 1);
        ChildIsBelow(t, v, d);
        BelowChain(t, c, v, d);
      }
    }
  }

  /** Nearer processes come first. */
  ghost predicate BreadthFirst(t: Tree, r: Pid, out: seq<Pid>) {
    forall i, j, n: nat :: 0 <= i < j < |out| && out[j] in Ball(t, r, n) ==> out[i] in Ball(t, r, n)
  }

  ghost predicate IsDescendants(t: Tree, r: Pid, out: seq<Pid>) {
    && NoDuplicates(out)
    && (forall d :: d in out <==> d != r && Below(t, r, d))
    && BreadthFirst(t, r, out)
  }

  /** The state of the breadth-first search. Processes within `level - 1` links are all seen; the
      first `cut` queue entries are within `level` links and complete that level; the rest of the
      queue belongs to the next one. */
  ghost predicate Searching(t: Tree, r: Pid, seen: set<Pid>, queue: seq<Pid>, level: nat, cut: nat) {
    && level >= 1 && cut <= |queue|
    && r in seen && Ball(t, r, level - 1) <= seen <= Ball(t, r, level)
    && (forall x :: x in Ball(t, r, level) ==> x in seen || x in queue[..cut])
    && (forall i :: 0 <= i < cut ==> queue[i] in Ball(t, r, level))
    && (forall i :: cut <= i < |queue| ==> queue[i] in Ball(t, r, level + 1))
    && (forall v, k :: v in seen && k in t.Children(v) ==> k in seen || k in queue)
  }

  lemma SearchStarts(t: Tree, r: Pid)
    ensures Searching(t, r, {r}, t.Children(r), 1, |t.Children(r)|)
  {
    assert Ball(t, r, 0) == {r};
    assert Ball(t, r, 1) == {r} + Kids(t, {r});
    forall i | 0 <= i < |t.Children(r)| ensures t.Children(r)[i] in Kids(t, {r}) {
      assert t.Children(r)[i] in t.Children(r);
    }
    assert t.Children(r)[..|t.Children(r)|] == t.Children(r);
  }

  lemma NextLevel(t: Tree, r: Pid, seen: set<Pid>, queue: seq<Pid>, level: nat)
    requires Searching(t, r, seen, queue, level, 0)
    ensures Searching(t, r, seen, queue, level + 1, |queue|)
  {
    assert seen == Ball(t, r, level);
    forall x | x in Ball(t, r, level + 1) ensures x in seen || x in queue[..|queue|] {
    }
  }

  lemma SkipSeen(t: Tree, r: Pid, seen: set<Pid>, queue: seq<Pid>, level: nat, cut: nat)
    requires Searching(t, r, seen, queue, level, cut) && cut > 0 && queue[0] in seen
    ensures Searching(t, r, seen, queue[1..], level, cut - 1)
  {
    forall x | x in queue[..cut] && x != queue[0] ensures x in queue[1..][..cut - 1] {
      var i :| 0 <= i < cut && queue[i] == x;
      assert queue[1..][..cut - 1][i - 1] == x;
    }
  }

  lemma VisitNew(t: Tree, r: Pid, seen: set<Pid>, queue: seq<Pid>, level: nat, cut: nat)
    requires Searching(t, r, seen, queue, level, cut) && cut > 0 && queue[0] !in seen
    ensures Searching(t, r, seen + {queue[0]}, queue[1..] + t.Children(queue[0]), level, cut - 1)
  {
    var next := queue[0];
    var queue' := queue[1..] + t.Children(next);
    forall i | cut - 1 <= i < |queue'| ensures queue'[i] in Ball(t, r, level + 1) {
      if i < |queue| - 1 {
        assert queue'[i] == queue[i + 1];
      } else {
        assert queue'[i] in t.Children(next);
      }
    }
    forall x | x in queue[..cut] && x != next ensures x in queue'[..cut - 1] {
      var i :| 0 <= i < cut && queue[i] == x;
      assert queue'[..cut - 1][i - 1] == x;
    }
    forall x | x in queue && x != next ensures x in queue' {
      var i :| 0 <= i < |queue| && queue[i] == x;
      assert queue'[i - 1] == x;
    }
  }

  /** A process not seen at this level is no nearer than the level. */
  lemma NewIsFarther(t: Tree, r: Pid, seen: set<Pid>, queue: seq<Pid>, level: nat, cut: nat, n: nat)
    requires Searching(t, r, seen, queue, level, cut) && cut > 0 && queue[0] !in seen
    requires queue[0] in Ball(t, r, n)
    ensures seen <= Ball(t, r, n)
  {
    if n < level {
      BallGrows(t, r, n, level - 1);
    } else {
      BallGrows(t, r, level, n);
    }
  }

  method Descendants(t: Tree, pid: Pid) returns (out: seq<Pid>)
    ensures IsDescendants(t, pid, out)
  {
    hide Searching, Ball;
    out := [];
    var seen := {pid};
    var queue := t.Children(pid);
    ghost var level: nat, cut: nat := 1, |queue|;
    ghost var all := set p, k | p in t.kidsByPid && k in t.kidsByPid[p] :: k;
    SearchStarts(t, pid);
    while queue != []
      invariant Searching(t, pid, seen, queue, level, cut) && cut <= |queue|
      invariant forall x :: x in seen <==> x == pid || x in out
      invariant pid !in out && NoDuplicates(out) && BreadthFirst(t, pid, out)
      invariant forall k :: k in queue ==> k in all
      decreases all - seen, |queue|
    {
      if cut == 0 {
        NextLevel(t, pid, seen, queue, level);
        level, cut := level + 1, |queue|;
      }
      var next := queue[0];
      if next in seen {
        SkipSeen(t, pid, seen, queue, level, cut);
        queue := queue[1..];
      } else {
        VisitNew(t, pid, seen, queue, level, cut);
        forall n: nat | next in Ball(t, pid, n) ensures seen <= Ball(t, pid, n) {
          NewIsFarther(t, pid, seen, queue, level, cut, n);
        }
        seen := seen + {next};
        out := out + [next];
        queue := queue[1..] + t.Children(next);
      }
      cut := cut - 1;
    }
    SearchEnds(t, pid, seen, level, cut);
  }

  lemma SearchEnds(t: Tree, r: Pid, seen: set<Pid>, level: nat, cut: nat)
    requires Searching(t, r, seen, [], level, cut)
    ensures forall d :: d in seen <==> Below(t, r, d)
  {
    assert Kids(t, seen) <= seen;
    forall d, n: nat | d in Ball(t, r, n) ensures d in seen {
      ClosedHoldsBall(t, r, n, seen);
    }
  }

  // ----- upwards: parent links -----

  /** The process `n` parent links above `d`, going through sampled processes only. */
  function Up(t: Tree, d: Pid, n: nat): Option<Pid>
    decreases n
  {
    if n == 0 then Some(d)
    else match t.Parent(d) { case None => None case Some(p) => Up(t, p, n - 1) }
  }

  ghost predicate Above(t: Tree, d: Pid, r: Pid) {
    exists n: nat :: Up(t, d, n) == Some(r)
  }

  lemma {:induction false} UpSplits(t: Tree, d: Pid, m: nat, n: nat)
    ensures Up(t, d, m + n) == match Up(t, d, m) { case None => None case Some(v) => Up(t, v, n) }
    decreases m
  {
    if m > 0 {
      match t.Parent(d) { case None => case Some(p) => UpSplits(t, p, m - 1, n); }
    }
  }

  /** Once the links run into a set closed under parents, they stay there. */
  lemma {:induction false} ClosedHoldsUp(t: Tree, d: Pid, n: nat, s: set<Pid>)
    requires d in s && forall v :: v in s && t.Parent(v).Some? ==> t.Parent(v).value in s
    ensures Up(t, d, n).Some? ==> Up(t, d, n).value in s
    decreases n
  {
    if n > 0 && t.Parent(d).Some? { ClosedHoldsUp(t, t.Parent(d).value, n - 1, s); }
  }

  /** The ancestors, nearest first, each once, and all of them. */
  ghost predicate IsAncestors(t: Tree, d: Pid, out: seq<Pid>) {
    && NoDuplicates(out) && d !in out
    && (forall i :: 0 <= i < |out| ==> Up(t, d, i + 1) == Some(out[i]))
    && (forall r :: r in out <==> r != d && Above(t, d, r))
  }

  method Ancestors(t: Tree, pid: Pid) returns (out: seq<Pid>)
    ensures IsAncestors(t, pid, out)
  {
    out := [];
    var seen := {pid};
    var cursor := pid;
    ghost var rest := t.byPid.Keys;
    while cursor in t.byPid
      invariant forall x :: x in seen <==> x == pid || x in out
      invariant NoDuplicates(out) && pid !in out
      invariant forall i :: 0 <= i < |out| ==> Up(t, pid, i + 1) == Some(out[i])
      invariant cursor == if out == [] then pid else out[|out| - 1]
      invariant forall v :: (v == pid || v in out) && v != cursor ==>
        t.Parent(v).Some? && (t.Parent(v).value == pid || t.Parent(v).value in out)
      invariant rest !! set x | x in out
      invariant rest + (set x | x in out) == t.byPid.Keys
      decreases rest
    {
      var parent := t.byPid[cursor].ppid;
      if parent == cursor || parent in seen {
        break;
      }
      seen := seen + {parent};
      if parent in t.byPid {
        UpSplits(t, pid, |out|, 1);
        assert Up(t, cursor, 1) == Some(parent) by { assert Up(t, parent, 0) == Some(parent); }
        rest := rest - {parent};
        out := out + [parent];
      } else {
        break;
      }
      cursor := parent;
    }
    forall n: nat, r | Up(t, pid, n) == Some(r) ensures r == pid || r in out {
      ClosedHoldsUp(t, pid, n, {pid} + set x | x in out);
    }
  }

  // ----- the two walks agree -----

  /** Every current parent link is a child link too, and every child link to a sampled parent, old
      or current, still leads upwards. */
  ghost predicate Consistent(t: Tree) {
    && (forall p :: p in t.byPid ==> t.byPid[p].pid == p && p in t.Children(t.byPid[p].ppid))
    && (forall p: Pid, c: Pid :: c in t.Children(p) ==> c in t.byPid && StillAbove(t, c, p))
  }

  ghost predicate StillAbove(t: Tree, c: Pid, p: Pid) {
    p in t.byPid && p != c ==> Above(t, c, p)
  }

  lemma TreeLinks(t: Tree, samples: seq<ProcessSample>)
    requires IsTreeOf(t, samples)
    ensures forall p :: p in t.byPid ==> t.byPid[p].pid == p && p in t.Children(t.byPid[p].ppid)
    ensures forall p: Pid, c: Pid :: c in t.Children(p) ==> c in t.byPid
  {
    forall p | p in t.byPid ensures Claims(samples, p, t.byPid[p].ppid) && t.byPid[p].pid == p {
      assert IsLast(samples, p, t.byPid[p]);
    }
    forall p: Pid, c: Pid | Claims(samples, c, p) ensures c in t.byPid {
      var i :| 0 <= i < |samples| && samples[i].pid == c && samples[i].ppid == p;
    }
  }

  lemma LinkedIsConsistent(t: Tree)
    requires Linked(t)
    ensures Consistent(t)
  {
    forall p: Pid, c: Pid | c in t.Children(p) ensures StillAbove(t, c, p) {
      if p in t.byPid {
        assert Up(t, p, 0) == Some(p);
        assert Up(t, c, 1) == Some(p);
      }
    }
  }

  /** Going up from a process to a sampled one is going down from that one to the process. */
  lemma {:induction false} UpIsDown(t: Tree, r: Pid, d: Pid, n: nat)
    requires forall p :: p in t.byPid ==> p in t.Children(t.byPid[p].ppid)
    requires Up(t, d, n) == Some(r)
    ensures d in Ball(t, r, n)
    decreases n
  {
    if n > 0 {
      var p := t.Parent(d).value;
      UpIsDown(t, r, p, n - 1);
      assert d in t.Children(p);
    }
  }

  lemma AboveChain(t: Tree, d: Pid, v: Pid, r: Pid)
    requires Above(t, d, v) && Above(t, v, r)
    ensures Above(t, d, r)
  {
    var m: nat :| Up(t, d, m) == Some(v);
    var n: nat :| Up(t, v, n) == Some(r);
    UpSplits(t, d, m, n);
  }

  lemma {:induction false} DownIsUp(t: Tree, r: Pid, d: Pid, n: nat)
    requires Consistent(t) && r in t.byPid && d in Ball(t, r, n)
    ensures Above(t, d, r) && d in t.byPid
    decreases n
  {
    if n == 0 {
      assert Up(t, d, 0) == Some(r);
    } else if d in Ball(t, r, n - 1) {
      DownIsUp(t, r, d, n - 1);
    } else {
      var v :| v in Ball(t, r, n - 1) && d in t.Children(v);
      DownIsUp(t, r, v, n - 1);
      if v != d {
        assert StillAbove(t, d, v);
        AboveChain(t, d, v, r);
      }
    }
  }

  lemma BelowIffAbove(t: Tree, r: Pid, d: Pid)
    requires Consistent(t) && r in t.byPid
    ensures Below(t, r, d) <==> Above(t, d, r)
    ensures Below(t, r, d) ==> d in t.byPid
  {
    if n: nat :| d in Ball(t, r, n) {
      DownIsUp(t, r, d, n);
    }
    if n: nat :| Up(t, d, n) == Some(r) {
      UpIsDown(t, r, d, n);
    }
  }

  /** With consistent links, and cycles, self-parents or missing parents wherever they may be: `d`
      is a descendant of the sampled process `r` exactly when `r` is an ancestor of `d`. */
  lemma WalksAgree(t: Tree, r: Pid, d: Pid, down: seq<Pid>, up: seq<Pid>)
    requires Consistent(t) && r in t.byPid && r != d
    requires IsDescendants(t, r, down) && IsAncestors(t, d, up)
    ensures d in down <==> r in up
  {
    BelowIffAbove(t, r, d);
  }

  ghost predicate Agree(t: Tree, r: Pid, d: Pid) { Below(t, r, d) <==> Above(t, d, r) }

  /** The walks of a snapshot agree from every sampled process exactly when every sampled parent a
      pid was ever listed under is still one of its ancestors; then the links are consistent. */
  lemma WalksAgreeIff(t: Tree, samples: seq<ProcessSample>)
    requires IsTreeOf(t, samples)
    ensures (forall r: Pid, d: Pid | r in t.byPid && d != r :: Agree(t, r, d))
       <==> (forall c: Pid, p: Pid | Claims(samples, c, p) :: StillAbove(t, c, p))
    ensures Consistent(t) <==> forall c: Pid, p: Pid | Claims(samples, c, p) :: StillAbove(t, c, p)
  {
    TreeLinks(t, samples);
    if forall r: Pid, d: Pid | r in t.byPid && d != r :: Agree(t, r, d) {
      forall c: Pid, p: Pid | Claims(samples, c, p) ensures StillAbove(t, c, p) {
        if p in t.byPid && p != c {
          ChildIsBelow(t, p, c);
          assert Agree(t, p, c);
        }
      }
    }
    if forall c: Pid, p: Pid | Claims(samples, c, p) :: StillAbove(t, c, p) {
      assert Consistent(t);
      forall r: Pid, d: Pid | r in t.byPid && d != r ensures Agree(t, r, d) {
        BelowIffAbove(t, r, d);
      }
    }
    if Consistent(t) {
      forall c: Pid, p: Pid | Claims(samples, c, p) ensures StillAbove(t, c, p) {
        assert c in t.Children(p);
      }
    }
  }

  lemma ChildIsBelow(t: Tree, p: Pid, c: Pid)
    requires c in t.Children(p)
    ensures Below(t, p, c)
  {
    assert p in Ball(t, p, 0);
    assert c in Ball(t, p, 1);
  }

  /** Below and above say the same of every other process exactly when `r` was sampled, or has no
      children: the children of an unsampled parent are found below it, and never find it above. */
  lemma DirectionsAgreeIff(t: Tree, r: Pid)
    requires Consistent(t)
    ensures (forall d: Pid | d != r :: Below(t, r, d) <==> Above(t, d, r)) <==> (r in t.byPid || t.Children(r) == [])
  {
    if r in t.byPid {
      forall d: Pid ensures Below(t, r, d) <==> Above(t, d, r) {
        BelowIffAbove(t, r, d);
      }
    } else {
      forall d: Pid | Above(t, d, r) ensures d == r {
        var n: nat :| Up(t, d, n) == Some(r);
        if n > 0 { UpSplits(t, d, n - 1, 1); }
      }
      if t.Children(r) == [] {
        forall d: Pid | Below(t, r, d) ensures d == r {
          var n: nat :| d in Ball(t, r, n);
          ClosedHoldsBall(t, r, n, {r});
        }
      } else {
        var d := t.Children(r)[0];
        assert d in t.Children(r) && d in t.byPid;
        assert d in Ball(t, r, 1) by { assert r in Ball(t, r, 0); }
        assert d != r && Below(t, r, d) && !Above(t, d, r);
      }
    }
  }

  /** A pid sampled twice, under different parents, breaks the agreement: process 3 stays a
      child of process 1, which is no ancestor of it. */
  lemma StaleChild(t: Tree)
    requires var s := (p: Pid, q: Pid) => ProcessSample(p, q, 0, None, None);
      IsTreeOf(t, [s(1, 0), s(2, 0), s(3, 1), s(3, 2)])
    ensures 1 in t.byPid && Below(t, 1, 3) && !Above(t, 3, 1)
  {
    var s := (p: Pid, q: Pid) => ProcessSample(p, q, 0, None, None);
    var samples := [s(1, 0), s(2, 0), s(3, 1), s(3, 2)];
    assert samples[0].pid == 1 && samples[1].pid == 2 && samples[2] == s(3, 1) && samples[3] == s(3, 2);
    assert Claims(samples, 3, 1);
    assert 3 in t.Children(1);
    assert 3 in Ball(t, 1, 1) by { assert 1 in Ball(t, 1, 0); }
    assert IsLast(samples, 3, t.byPid[3]) && IsLast(samples, 2, t.byPid[2]);
    assert t.Parent(3) == Some(2) && t.Parent(2) == None;
    forall n: nat ensures Up(t, 3, n) != Some(1) {
      ClosedHoldsUp(t, 3, n, {2, 3});
    }
  }

  // ----- the kill list -----

  /** Everything to signal for `root`: the root and all below it, except pids 0 and 1. */
  method TerminationTargets(t: Tree, root: Pid) returns (targets: seq<Pid>)
    ensures Ascending(targets)
    ensures forall p :: p in targets <==> p > 1 && Below(t, root, p)
  {
    var down := Descendants(t, root);
    targets := down + [root];
    assert root in Ball(t, root, 0);
    assert forall p :: p in targets <==> Below(t, root, p);
    targets := Retain(targets);
    targets := SortDedup(targets);
  }

  /** `retain(|&p| p > 1)`. */
  function Retain(s: seq<Pid>): (r: seq<Pid>)
    ensures forall p :: p in r <==> p in s && p > 1
  {
    if s == [] then []
    else
      assert s == [s[0]] + s[1..];
      if s[0] > 1 then [s[0]] + Retain(s[1..]) else Retain(s[1..])
  }
}
