/** The task lifecycle machine and its audited history (crates/memmux-core/src/state.rs and
    crates/memmux-core/src/runtime.rs). */
module Lifecycle {
  datatype TaskState =
    | Created | Queued | Admitting | Starting | Active | ToolRunning | WaitingUser | Blocked | Idle
    | Checkpointing | Hibernated | Recycling | Resuming | Failed | Terminating | Terminated
  {
    predicate IsResident() {
      Starting? || Active? || ToolRunning? || WaitingUser? || Idle? || Checkpointing? || Recycling? || Resuming?
    }

    function AllowedNext(): set<TaskState> {
      match this
      case Created => {Queued, Terminating}
      case Queued => {Admitting, Blocked, Terminating}
      case Admitting => {Starting, Queued, Failed, Terminating}
      case Starting => {Active, Failed, Terminating}
      case Active => {ToolRunning, WaitingUser, Blocked, Idle, Checkpointing, Recycling, Failed, Terminating}
      case ToolRunning => {Active, WaitingUser, Failed, Terminating}
      case WaitingUser => {Active, Idle, Checkpointing, Terminating}
      case Blocked => {Queued, Active, Terminating}
      case Idle => {Active, Checkpointing, Terminating}
      case Checkpointing => {Hibernated, Active, Failed, Terminating}
      case Hibernated => {Queued, Resuming, Terminating}
      case Recycling => {Resuming, Failed, Terminating}
      case Resuming => {Active, Failed, Terminating}
      case Failed => {Queued, Terminating}
      case Terminating => {Terminated}
      case Terminated => {}
    }
  }

  predicate Legal(a: TaskState, b: TaskState) { b in a.AllowedNext() }

  datatype Transition = Transition(from: TaskState, to: TaskState, atMs: nat, reason: string)

  datatype Outcome = Moved(transition: Transition) | Illegal(from: TaskState, to: TaskState)

  datatype Attempt = Attempt(to: TaskState, reason: string, nowMs: nat)

  datatype Record = Record(state: TaskState, createdAtMs: nat, updatedAtMs: nat, history: seq<Transition>)

  function NewRecord(nowMs: nat): Record { Record(Created, nowMs, nowMs, []) }

  function Try(r: Record, a: Attempt): (Record, Outcome) {
    if Legal(r.state, a.to) then
      var t := Transition(r.state, a.to, a.nowMs, a.reason);
      (Record(a.to, r.createdAtMs, a.nowMs, r.history + [t]), Moved(t))
    else (r, Illegal(r.state, a.to))
  }

  function Run(nowMs: nat, attempts: seq<Attempt>): Record {
    if attempts == [] then NewRecord(nowMs)
    else Try(Run(nowMs, attempts[..|attempts| - 1]), attempts[|attempts| - 1]).0
  }

  /** The states a task has been in, oldest first. */
  function Visited(r: Record): seq<TaskState> {
    [Created] + seq(|r.history|, i requires 0 <= i < |r.history| => r.history[i].to)
  }

  /** The history is one chain of legal moves from `Created` to the current state. */
  ghost predicate Chained(r: Record) {
    && (forall i :: 0 <= i < |r.history| ==>
          r.history[i].from == Visited(r)[i] && Legal(Visited(r)[i], Visited(r)[i + 1]))
    && r.state == Visited(r)[|r.history|]
    && (r.history != [] ==> r.updatedAtMs == r.history[|r.history| - 1].atMs)
    && (r.history == [] ==> r.updatedAtMs == r.createdAtMs)
  }

  lemma TryKeepsChain(r: Record, a: Attempt)
    requires Chained(r)
    ensures Chained(Try(r, a).0)
  {
    var s := Try(r, a).0;
    hide Legal;
    forall i | 0 <= i <= |r.history| ensures Visited(s)[i] == Visited(r)[i] {
    }
  }

  /** Whatever is attempted, in whatever order. */
  lemma {:induction false} RunIsChained(nowMs: nat, attempts: seq<Attempt>)
    ensures Chained(Run(nowMs, attempts)) && Run(nowMs, attempts).createdAtMs == nowMs
  {
    if attempts != [] {
      RunIsChained(nowMs, attempts[..|attempts| - 1]);
      TryKeepsChain(Run(nowMs, attempts[..|attempts| - 1]), attempts[|attempts| - 1]);
    }
  }

  lemma ChainStep(r: Record, i: nat)
    requires Chained(r) && i < |r.history|
    ensures i + 1 < |Visited(r)| == |r.history| + 1 && Legal(Visited(r)[i], Visited(r)[i + 1])
  {
    hide Legal;
  }

  lemma OnlyFromCheckpoint(a: TaskState)
    requires Legal(a, Hibernated)
    ensures a == Checkpointing
  {
  }

  lemma AfterTerminating(a: TaskState)
    ensures Legal(Terminating, a) <==> a == Terminated
    ensures !Legal(Terminated, a)
  {
  }

  /** A task hibernates only out of a checkpoint, and never starts out hibernated. */
  lemma HibernatedAfterCheckpoint(r: Record, i: nat)
    requires Chained(r) && i < |Visited(r)| && Visited(r)[i] == Hibernated
    ensures i > 0 && Visited(r)[i - 1] == Checkpointing
  {
    assert |Visited(r)| == |r.history| + 1 && Visited(r)[0] == Created;
    if i > 0 {
      hide *;
      ChainStep(r, i - 1);
      OnlyFromCheckpoint(Visited(r)[i - 1]);
    }
  }

  /** How each state is entered: the table, read by its columns. */
  predicate Enters(a: TaskState, b: TaskState) {
    match b
    case Created => false
    case Queued => a.Created? || a.Admitting? || a.Blocked? || a.Hibernated? || a.Failed?
    case Admitting => a.Queued?
    case Starting => a.Admitting?
    case Active =>
      a.Starting? || a.ToolRunning? || a.WaitingUser? || a.Blocked? || a.Idle? || a.Checkpointing? || a.Resuming?
    case ToolRunning => a.Active?
    case WaitingUser => a.Active? || a.ToolRunning?
    case Blocked => a.Queued? || a.Active?
    case Idle => a.Active? || a.WaitingUser?
    case Checkpointing => a.Active? || a.WaitingUser? || a.Idle?
    case Hibernated => a.Checkpointing?
    case Recycling => a.Active?
    case Resuming => a.Hibernated? || a.Recycling?
    case Failed =>
      a.Admitting? || a.Starting? || a.Active? || a.ToolRunning? || a.Checkpointing? || a.Recycling? || a.Resuming?
    case Terminating => !a.Terminating? && !a.Terminated?
    case Terminated => a.Terminating?
  }

  lemma EnteredFromIff(a: TaskState, b: TaskState)
    ensures Legal(a, b) <==> Enters(a, b)
  {
  }

  /** Legal moves along a path of states end in `b`. */
  predicate Leads(a: TaskState, path: seq<TaskState>, b: TaskState)
    decreases |path|
  {
    if path == [] then a == b else Legal(a, path[0]) && Leads(path[0], path[1..], b)
  }

  predicate LeadsOnTo(a: TaskState, path: seq<TaskState>, b: TaskState) {
    path != [] && Leads(a, path, b)
  }

  lemma {:induction false} LeadsOn(a: TaskState, p: seq<TaskState>, b: TaskState, q: seq<TaskState>, c: TaskState)
    requires Leads(a, p, b) && Leads(b, q, c)
    ensures Leads(a, p + q, c)
    decreases |p|
  {
    if p == [] {
      assert p + q == q;
    } else {
      LeadsOn(p[0], p[1..], b, q, c);
      assert (p + q)[1..] == p[1..] + q;
    }
  }

  lemma OneMove(a: TaskState, b: TaskState)
    requires Legal(a, b)
    ensures Leads(a, [b], b)
  {
    assert [b][1..] == [];
  }

  lemma TwoMoves(a: TaskState, x: TaskState, b: TaskState)
    requires Legal(a, x) && Legal(x, b)
    ensures Leads(a, [x, b], b)
  {
    hide Leads, Legal;
    OneMove(a, x);
    OneMove(x, b);
    LeadsOn(a, [x], x, [b], b);
    assert [x] + [b] == [x, b];
  }

  lemma ThreeMoves(a: TaskState, x: TaskState, y: TaskState, b: TaskState)
    requires Legal(a, x) && Legal(x, y) && Legal(y, b)
    ensures Leads(a, [x, y, b], b)
  {
    hide Leads, Legal;
    OneMove(a, x);
    TwoMoves(x, y, b);
    LeadsOn(a, [x], x, [y, b], b);
    assert [x] + [y, b] == [x, y, b];
  }

  /** A way to the queue, for a task that is not being torn down. */
  lemma WayToQueue(a: TaskState) returns (path: seq<TaskState>)
    requires a != Terminating && a != Terminated
    ensures path != [] && Leads(a, path, Queued)
  {
    hide Leads;
    if Legal(a, Queued) {
      OneMove(a, Queued);
      path := [Queued];
    } else if Legal(a, Failed) {
      TwoMoves(a, Failed, Queued);
      path := [Failed, Queued];
    } else if a == Queued {
      TwoMoves(a, Blocked, Queued);
      path := [Blocked, Queued];
    } else {
      ThreeMoves(a, Active, Blocked, Queued);
      path := [Active, Blocked, Queued];
    }
  }

  /** A way from the queue to any state but `Created`. */
  lemma WayFromQueue(b: TaskState) returns (path: seq<TaskState>)
    requires b != Created
    ensures Leads(Queued, path, b)
  {
    var before: TaskState := match b
      case Terminated => Terminating
      case Hibernated => Checkpointing
      case Resuming => Recycling
      case _ => Active;
    if b == Queued {
      path := [];
    } else if Legal(Queued, b) {
      hide Leads;
      OneMove(Queued, b);
      path := [b];
    } else if b == Starting || b == Failed {
      hide Leads;
      TwoMoves(Queued, Admitting, b);
      path := [Admitting, b];
    } else if b == Terminated {
      hide Leads;
      TwoMoves(Queued, Terminating, b);
      path := [Terminating, b];
    } else {
      hide Leads;
      ThreeMoves(Queued, Admitting, Starting, Active);
      path := [Admitting, Starting, Active];
      if b != Active {
        var rest := if Legal(Active, b) then [b] else [before, b];
        if Legal(Active, b) { OneMove(Active, b); } else { TwoMoves(Active, before, b); }
        LeadsOn(Queued, path, Active, rest, b);
        path := path + rest;
      }
    }
  }

  lemma {:induction false} WhereItLeads(a: TaskState, path: seq<TaskState>, b: TaskState)
    requires path != [] && Leads(a, path, b)
    ensures b != Created && (a == Terminating ==> b == Terminated) && a != Terminated
    decreases |path|
  {
    if |path| == 1 {
      assert path[1..] == [];
    } else {
      WhereItLeads(path[0], path[1..], b);
    }
  }

  lemma LastMove()
    ensures Legal(Terminating, Terminated)
  {
  }

  /** Which states a task can come to, from any state by any number of legal moves: while it is not being
      torn down, every state but `Created`, its own included; afterwards only `Terminated`, once. */
  lemma ReachableIff(a: TaskState, b: TaskState)
    ensures (exists path :: LeadsOnTo(a, path, b))
       <==> b != Created && a != Terminated && (a == Terminating ==> b == Terminated)
  {
    hide Leads, Legal;
    forall path | LeadsOnTo(a, path, b)
      ensures b != Created && a != Terminated && (a == Terminating ==> b == Terminated)
    {
      WhereItLeads(a, path, b);
    }
    if b != Created && a != Terminated && (a == Terminating ==> b == Terminated) {
      var path := [Terminated];
      if a == Terminating {
        LastMove();
        OneMove(a, Terminated);
      } else {
        var p := WayToQueue(a);
        var q := WayFromQueue(b);
        LeadsOn(a, p, Queued, q, b);
        path := p + q;
      }
      assert LeadsOnTo(a, path, b);
    }
  }

  /** Attempts along a path, one after the other. */
  function Follow(r: Record, path: seq<TaskState>, reason: string, nowMs: nat): Record
    decreases |path|
  {
    if path == [] then r else Follow(Try(r, Attempt(path[0], reason, nowMs)).0, path[1..], reason, nowMs)
  }

  /** Attempts along legal moves all succeed, and each is recorded. */
  lemma {:induction false} FollowSucceeds(r: Record, path: seq<TaskState>, b: TaskState, reason: string, nowMs: nat)
    requires Leads(r.state, path, b)
    ensures var after := Follow(r, path, reason, nowMs);
      && after.state == b && |after.history| == |r.history| + |path| && r.history <= after.history
      && forall i :: 0 <= i < |path| ==>
           var t := after.history[|r.history| + i]; t.to == path[i] && t.reason == reason && t.atMs == nowMs
    decreases |path|
  {
    if path != [] {
      var next := Try(r, Attempt(path[0], reason, nowMs)).0;
      FollowSucceeds(next, path[1..], b, reason, nowMs);
      var after := Follow(r, path, reason, nowMs);
      forall i | 0 <= i < |path|
        ensures var t := after.history[|r.history| + i]; t.to == path[i] && t.reason == reason && t.atMs == nowMs
      {
        if i > 0 {
          assert path[i] == path[1..][i - 1];
          assert after.history[|next.history| + (i - 1)].to == path[1..][i - 1];
        }
      }
    }
  }

  /** How a provider comes to hold memory: a task turns resident only by starting, by resuming from
      hibernation, or by being unblocked. */
  lemma BecomesResidentIff(a: TaskState, b: TaskState)
    ensures !a.IsResident() && b.IsResident() && Legal(a, b)
       <==> (a == Admitting && b == Starting) || (a == Hibernated && b == Resuming) || (a == Blocked && b == Active)
  {
  }

  /** Once `Terminating`, a task never holds a provider again and makes at most one more move. */
  lemma {:induction false} TerminatingIsFinal(r: Record, i: nat, j: nat)
    requires Chained(r) && i < |Visited(r)| && Visited(r)[i] == Terminating && i <= j < |Visited(r)|
    ensures !Visited(r)[j].IsResident() && j <= i + 1 && |r.history| <= i + 1
    ensures j > i ==> Visited(r)[j] == Terminated
  {
    hide Chained, Legal;
    assert |Visited(r)| == |r.history| + 1;
    if i < |r.history| {
      hide Visited;
      ChainStep(r, i);
      AfterTerminating(Visited(r)[i + 1]);
      if i + 1 < |r.history| {
        ChainStep(r, i + 1);
        AfterTerminating(Visited(r)[i + 2]);
      }
    }
  }

  /** Two attempts are enough to tear down any task, from any state it can be in. */
  lemma TwoMovesTerminate(r: Record, reason: string, nowMs: nat)
    ensures var once := Try(r, Attempt(Terminating, reason, nowMs)).0;
      var twice := Try(once, Attempt(Terminated, reason, nowMs)).0;
      twice.state == Terminated && |twice.history| <= |r.history| + 2
  {
  }

  class Task {
    var state: TaskState
    const createdAtMs: nat
    var updatedAtMs: nat
    var history: seq<Transition>

    function Now(): Record
      reads this
    {
      Record(state, createdAtMs, updatedAtMs, history)
    }

    constructor (nowMs: nat)
      ensures Now() == NewRecord(nowMs) && Chained(Now())
    {
      state, createdAtMs, updatedAtMs, history := Created, nowMs, nowMs, [];
    }

    method MoveTo(to: TaskState, reason: string, nowMs: nat) returns (outcome: Outcome)
      modifies this
      ensures (Now(), outcome) == Try(old(Now()), Attempt(to, reason, nowMs))
      ensures old(Chained(Now())) ==> Chained(Now())
      ensures outcome.Illegal? ==> outcome == Illegal(old(state), to) && Now() == old(Now())
    {
      if Chained(Now()) { TryKeepsChain(Now(), Attempt(to, reason, nowMs)); }
      if to !in state.AllowedNext() {
        return Illegal(state, to);
      }
      var transition := Transition(state, to, nowMs, reason);
      state := to;
      updatedAtMs := nowMs;
      history := history + [transition];
      outcome := Moved(transition);
    }
  }
}
