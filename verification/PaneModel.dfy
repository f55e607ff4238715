/** The pane multiplexer state of the client (crates/memmux/src/app.rs, `Model`): one tiling tree
    per workspace group, the active group and the focused pane. */
module PaneModel {
  import opened Prelude
  import opened Lexicographic
  import opened PaneGeometry
  import opened PaneLayout

  // ----- the data the panes refer to -----

  datatype TaskView = TaskView(id: string, repository: string)

  datatype Data = Data(tasks: seq<TaskView>, workspaces: seq<string>)

  /** The key of agents without a registered workspace. */
  const OTHER_WS_KEY: string := "\0other"

  /** The repository of the first task with this id. */
  function RepositoryOf(tasks: seq<TaskView>, id: string): Option<string> {
    if tasks == [] then None
    else if tasks[0].id == id then Some(tasks[0].repository)
    else RepositoryOf(tasks[1..], id)
  }

  function WsKey(data: Data, id: string): string {
    match RepositoryOf(data.tasks, id)
    case Some(r) => if r in data.workspaces then r else OTHER_WS_KEY
    case None => OTHER_WS_KEY
  }

  predicate HasUngrouped(data: Data) {
    exists i :: 0 <= i < |data.tasks| && data.tasks[i].repository !in data.workspaces
  }

  /** The rows of the workspace panel: the workspaces, then "Other" if some agent has none. */
  function RowCount(data: Data): nat {
    |data.workspaces| + if HasUngrouped(data) then 1 else 0
  }

  function RowKey(data: Data, row: nat): Option<string> {
    if row < |data.workspaces| then Some(data.workspaces[row])
    else if row == |data.workspaces| && HasUngrouped(data) then Some(OTHER_WS_KEY)
    else None
  }

  // ----- the state -----

  datatype Focus = Sidebar | Panes

  datatype State = State(
    wsSelected: nat,
    focus: Focus,
    panes: map<string, Layout>,
    activeWs: Option<string>,
    focusedPane: Option<string>,
    splitOrient: Orient,
    zoomed: bool)
  {
    /** The tree shown in the grid. */
    function ActivePanes(): Option<Layout> {
      if activeWs.Some? && activeWs.value in panes then Some(panes[activeWs.value]) else None
    }
  }

  const INITIAL := State(0, Sidebar, map[], None, None, Cols, false)

  predicate IsLeastKey(keys: set<string>, k: string) {
    k in keys && forall x :: x in keys ==> x == k || Before(k, x)
  }

  lemma {:induction false} FindLeastKey(keys: set<string>) returns (k: string)
    requires keys != {}
    ensures IsLeastKey(keys, k)
    decreases keys
  {
    hide Before;
    var x :| x in keys;
    var rest := keys - {x};
    assert keys == rest + {x};
    k := x;
    if rest != {} {
      var y := FindLeastKey(rest);
      OrderTotal(x, y);
      k := if Before(x, y) then x else y;
      forall z | z in keys ensures z == k || Before(k, z) {
        if z == x {
        } else if z != y && k == x {
          OrderTransitive(x, y, z);
        }
      }
    }
  }

  lemma LeastKeyExists(keys: set<string>)
    requires keys != {}
    ensures exists k :: IsLeastKey(keys, k)
  {
    var k := FindLeastKey(keys);
  }

  lemma LeastKeyIsUnique(keys: set<string>, k: string, l: string)
    requires IsLeastKey(keys, k) && IsLeastKey(keys, l)
    ensures k == l
  {
    OrderTotal(k, l);
  }

  /** The first key of the sorted map. */
  ghost function LeastKey(keys: set<string>): (k: string)
    requires keys != {}
    ensures IsLeastKey(keys, k)
  {
    LeastKeyExists(keys);
    var k :| IsLeastKey(keys, k);
    k
  }

  // ----- the operations -----

  /** The group's tree once `id` is open in it: next to the focused pane if that is in the group,
      else next to the last one. */
  function Opened(t: Layout, id: string, prevFocus: Option<string>, orient: Orient): Layout {
    if t.Contains(id) then t
    else
      var ids := t.Leaves();
      var target := if prevFocus.Some? && t.Contains(prevFocus.value) then prevFocus.value else ids[|ids| - 1];
      SplitLeaf(t, target, id, orient).layout
  }

  function AfterOpen(data: Data, s: State, id: string): State {
    var key := WsKey(data, id);
    var tree := if key in s.panes then Opened(s.panes[key], id, s.focusedPane, s.splitOrient) else Leaf(id);
    s.(focus := Panes, zoomed := false, panes := s.panes[key := tree], activeWs := Some(key), focusedPane := Some(id))
  }

  function PanesWithout(data: Data, panes: map<string, Layout>, id: string): map<string, Layout> {
    var key := WsKey(data, id);
    if key !in panes then panes
    else match Without(panes[key], id)
      case None => panes - {key}
      case Some(t) => panes[key := t]
  }

  ghost function Refocused(s: State): State {
    match s.ActivePanes()
    case Some(t) =>
      if s.focusedPane.Some? && t.Contains(s.focusedPane.value) then s
      else s.(focusedPane := Some(t.Leaves()[0]))
    case None =>
      if s.panes == map[] then s.(activeWs := None, focusedPane := None, focus := Sidebar, zoomed := false)
      else
        var k := LeastKey(s.panes.Keys);
        s.(activeWs := Some(k), focusedPane := Some(s.panes[k].Leaves()[0]))
  }

  ghost function AfterClose(data: Data, s: State, id: string): State {
    Refocused(s.(panes := PanesWithout(data, s.panes, id)))
  }

  /** Selecting a workspace row points the grid at its group. */
  function AfterSelect(data: Data, s: State, row: nat): State {
    match RowKey(data, row)
    case None => s.(wsSelected := row)
    case Some(key) =>
      s.(wsSelected := row, activeWs := Some(key), zoomed := false,
         focusedPane := if key in s.panes then Some(s.panes[key].Leaves()[0]) else None)
  }

  function AfterZoom(s: State): State {
    if s.focusedPane.Some? then s.(zoomed := !s.zoomed) else s
  }

  function AfterResize(s: State, dir: Dir): State {
    if s.focusedPane.None? || s.ActivePanes().None? then s
    else
      var delta := if dir == Right || dir == Down then 5 else -5;
      var c := Resize(s.ActivePanes().value, s.focusedPane.value, dir == Left || dir == Right, delta);
      s.(panes := s.panes[s.activeWs.value := c.layout])
  }

  /** The first rectangle of the focused pane, if it is shown. */
  function CurrentRect(placed: seq<Placed>, focused: Option<string>): Option<Rect> {
    if placed == [] || focused.None? then None
    else if placed[0].id == focused.value then Some(placed[0].rect)
    else CurrentRect(placed[1..], focused)
  }

  ghost function AfterFocusDir(s: State, dir: Dir, area: Rect, divide: Divider): State {
    if s.ActivePanes().None? then s
    else
      var placed := LeafRects(s.ActivePanes().value, area, divide);
      match CurrentRect(placed, s.focusedPane)
      case None => s
      case Some(cur) =>
        if i: nat :| IsNearest(placed, s.focusedPane.value, cur, dir, Some(i))
        then s.(focusedPane := Some(placed[i].id)) else s
  }

  function FirstCovering(placed: seq<Placed>, col: nat, row: nat): Option<string> {
    if placed == [] then None
    else if placed[0].rect.Covers(col, row) then Some(placed[0].id)
    else FirstCovering(placed[1..], col, row)
  }

  function AfterFocusAt(s: State, col: nat, row: nat, area: Rect, divide: Divider): State {
    if s.ActivePanes().None? then s
    else match FirstCovering(LeafRects(s.ActivePanes().value, area, divide), col, row)
      case None => s
      case Some(id) => s.(focusedPane := Some(id), focus := Panes)
  }

  /** Fresh data: the selected row is clamped to the rows there are now, and nothing else moves. */
  function AfterRefresh(newData: Data, s: State): State {
    if s.wsSelected >= RowCount(newData) then s.(wsSelected := SaturatingSub(RowCount(newData), 1)) else s
  }

  datatype Op =
    | Open(id: string)
    | Close(id: string)
    | Select(row: nat)
    | ToggleZoom
    | ResizeFocused(dir: Dir)
    | FocusDir(dir: Dir, area: Rect, divide: Divider)
    | FocusAt(col: nat, y: nat, area: Rect, divide: Divider)
    | FocusSidebar
    | SetOrient(orient: Orient)

  ghost function Next(data: Data, s: State, op: Op): State {
    match op
    case Open(id) => AfterOpen(data, s, id)
    case Close(id) => AfterClose(data, s, id)
    case Select(row) => AfterSelect(data, s, row)
    case ToggleZoom => AfterZoom(s)
    case ResizeFocused(dir) => AfterResize(s, dir)
    case FocusDir(dir, area, divide) => AfterFocusDir(s, dir, area, divide)
    case FocusAt(col, y, area, divide) => AfterFocusAt(s, col, y, area, divide)
    case FocusSidebar => s.(focus := Sidebar)
    case SetOrient(orient) => s.(splitOrient := orient)
  }

  // ----- what every state satisfies -----

  /** Distinct panes, ratios in range. */
  ghost predicate SoundTree(t: Layout) { NoDuplicates(t.Leaves()) && t.RatiosOk() }

  /** A pane has focus exactly when the active group is open, and then it is in that group; the
      grid has the keyboard only while some group is open; only a focused pane is zoomed. */
  ghost predicate GoodFocus(s: State) {
    && (s.focusedPane.Some? <==> s.ActivePanes().Some?)
    && (s.focusedPane.Some? ==> s.ActivePanes().value.Contains(s.focusedPane.value))
    && (s.focus == Panes ==> s.panes != map[])
    && (s.zoomed ==> s.focusedPane.Some?)
  }

  ghost predicate Sound(s: State) {
    (forall k :: k in s.panes ==> SoundTree(s.panes[k])) && GoodFocus(s)
  }

  predicate OpenIn(panes: map<string, Layout>, key: string, id: string) {
    key in panes && panes[key].Contains(id)
  }

  /** The agent has a pane in some group. */
  ghost predicate IsOpen(panes: map<string, Layout>, id: string) {
    exists k :: OpenIn(panes, k, id)
  }

  /** Every pane is in the group of its agent. */
  ghost predicate InOwnGroups(data: Data, panes: map<string, Layout>) {
    forall k, id :: OpenIn(panes, k, id) ==> WsKey(data, id) == k
  }

  ghost predicate Good(data: Data, s: State) {
    Sound(s) && InOwnGroups(data, s.panes)
  }

  lemma {:induction false} InsertDistinct(s: seq<string>, x: string, y: string)
    ensures forall z :: z in InsertAfterFirst(s, x, y) <==> z in s || (x in s && z == y)
    ensures NoDuplicates(s) && y !in s ==> NoDuplicates(InsertAfterFirst(s, x, y))
  {
    if s != [] {
      assert s == [s[0]] + s[1..];
      InsertDistinct(s[1..], x, y);
      if NoDuplicates(s) && y !in s {
        HeadIsDistinct(s);
        DistinctCons(s[0], InsertAfterFirst(s[1..], x, y));
        if s[0] == x {
          DistinctCons(y, s[1..]);
          DistinctCons(x, [y] + s[1..]);
          assert [x, y] + s[1..] == [x] + ([y] + s[1..]);
        }
      }
    }
  }

  lemma HeadIsDistinct(s: seq<string>)
    requires NoDuplicates(s) && s != []
    ensures s[0] !in s[1..] && NoDuplicates(s[1..])
  {
    forall i | 0 < i < |s| ensures s[i] != s[0] {
    }
  }

  lemma DistinctCons(x: string, s: seq<string>)
    ensures NoDuplicates(s) && x !in s ==> NoDuplicates([x] + s)
  {
  }

  lemma {:induction false} DropDistinct(s: seq<string>, x: string)
    ensures forall z :: z in Drop(s, x) <==> z in s && z != x
    ensures NoDuplicates(s) ==> NoDuplicates(Drop(s, x))
  {
    if s != [] {
      assert s == [s[0]] + s[1..];
      DropDistinct(s[1..], x);
      if NoDuplicates(s) {
        HeadIsDistinct(s);
        DistinctCons(s[0], Drop(s[1..], x));
      }
    }
  }

  lemma OpenedIsSound(t: Layout, id: string, prevFocus: Option<string>, orient: Orient)
    requires SoundTree(t)
    ensures SoundTree(Opened(t, id, prevFocus, orient)) && Opened(t, id, prevFocus, orient).Contains(id)
  {
    if !t.Contains(id) {
      var ids := t.Leaves();
      var target := if prevFocus.Some? && t.Contains(prevFocus.value) then prevFocus.value else ids[|ids| - 1];
      SplitLeaves(t, target, id, orient);
      InsertDistinct(ids, target, id);
    }
  }

  lemma WithoutIsSound(t: Layout, id: string)
    requires SoundTree(t)
    ensures Without(t, id).Some? ==> SoundTree(Without(t, id).value)
  {
    WithoutLeaves(t, id);
    DropDistinct(t.Leaves(), id);
  }

  lemma OpenIsSound(data: Data, s: State, id: string)
    requires Sound(s)
    ensures Sound(AfterOpen(data, s, id))
  {
    hide SoundTree, Opened, WsKey;
    var key := WsKey(data, id);
    if key in s.panes {
      OpenedIsSound(s.panes[key], id, s.focusedPane, s.splitOrient);
    } else {
      LeafIsSound(id);
    }
  }

  lemma LeafIsSound(id: string)
    ensures SoundTree(Leaf(id))
  {
  }

  lemma CloseIsSound(data: Data, s: State, id: string)
    requires Sound(s)
    ensures Sound(AfterClose(data, s, id))
  {
    hide SoundTree, WsKey;
    var key := WsKey(data, id);
    if key in s.panes { WithoutIsSound(s.panes[key], id); }
    var panes := PanesWithout(data, s.panes, id);
    assert panes == map[] <==> panes.Keys == {};
  }

  lemma ResizeIsSound(s: State, dir: Dir)
    requires Sound(s)
    ensures Sound(AfterResize(s, dir))
  {
    if s.focusedPane.Some? {
      var delta := if dir == Right || dir == Down then 5 else -5;
      ResizeKeepsLeaves(s.ActivePanes().value, s.focusedPane.value, dir == Left || dir == Right, delta);
    }
  }

  lemma {:induction false} CoveringIsPlaced(placed: seq<Placed>, col: nat, row: nat)
    ensures FirstCovering(placed, col, row).Some? ==>
      exists i :: 0 <= i < |placed| && placed[i].id == FirstCovering(placed, col, row).value
  {
    if placed != [] && !placed[0].rect.Covers(col, row) {
      CoveringIsPlaced(placed[1..], col, row);
    }
  }

  lemma FocusMovesAreSound(data: Data, s: State, op: Op)
    requires Sound(s) && (op.FocusDir? || op.FocusAt?)
    ensures Sound(Next(data, s, op)) && Next(data, s, op).panes == s.panes
  {
    if s.ActivePanes().Some? {
      var t := s.ActivePanes().value;
      LeafRectsAreLeaves(t, op.area, op.divide);
      if op.FocusAt? { CoveringIsPlaced(LeafRects(t, op.area, op.divide), op.col, op.y); }
    }
  }

  lemma NextIsSound(data: Data, s: State, op: Op)
    requires Sound(s)
    ensures Sound(Next(data, s, op))
  {
    match op
    case Open(id) => OpenIsSound(data, s, id);
    case Close(id) => CloseIsSound(data, s, id);
    case Select(row) =>
    case ToggleZoom =>
    case ResizeFocused(dir) => ResizeIsSound(s, dir);
    case FocusDir(_, _, _) => FocusMovesAreSound(data, s, op);
    case FocusAt(_, _, _, _) => FocusMovesAreSound(data, s, op);
    case FocusSidebar =>
    case SetOrient(_) =>
  }

  // ----- what is open -----

  lemma OpenedMembers(t: Layout, id: string, prevFocus: Option<string>, orient: Orient, x: string)
    ensures Opened(t, id, prevFocus, orient).Contains(x) <==> t.Contains(x) || x == id
  {
    if !t.Contains(id) {
      var ids := t.Leaves();
      var target := if prevFocus.Some? && t.Contains(prevFocus.value) then prevFocus.value else ids[|ids| - 1];
      SplitLeaves(t, target, id, orient);
      InsertDistinct(ids, target, id);
    }
  }

  lemma OpenedIn(data: Data, s: State, id: string, k: string, x: string)
    ensures OpenIn(AfterOpen(data, s, id).panes, k, x) <==> OpenIn(s.panes, k, x) || (k == WsKey(data, id) && x == id)
  {
    hide WsKey, Opened;
    if k in s.panes { OpenedMembers(s.panes[k], id, s.focusedPane, s.splitOrient, x); }
  }

  lemma WithoutMembers(t: Layout, id: string, x: string)
    ensures (Without(t, id).Some? && Without(t, id).value.Contains(x)) <==> t.Contains(x) && x != id
  {
    WithoutLeaves(t, id);
    DropDistinct(t.Leaves(), id);
  }

  lemma ClosedIn(data: Data, panes: map<string, Layout>, id: string, k: string, x: string)
    ensures OpenIn(PanesWithout(data, panes, id), k, x) <==> OpenIn(panes, k, x) && !(k == WsKey(data, id) && x == id)
  {
    hide WsKey;
    if k in panes { WithoutMembers(panes[k], id, x); }
  }

  lemma RefocusKeepsPanes(s: State)
    ensures Refocused(s).panes == s.panes
  {
  }

  lemma ResizedIn(s: State, dir: Dir, k: string, x: string)
    ensures OpenIn(AfterResize(s, dir).panes, k, x) <==> OpenIn(s.panes, k, x)
  {
    if s.focusedPane.Some? && s.ActivePanes().Some? {
      var delta := if dir == Right || dir == Down then 5 else -5;
      ResizeKeepsLeaves(s.ActivePanes().value, s.focusedPane.value, dir == Left || dir == Right, delta);
    }
  }

  /** Which panes there are after any operation. */
  lemma NextOpenIn(data: Data, s: State, op: Op, k: string, x: string)
    ensures OpenIn(Next(data, s, op).panes, k, x) <==>
      match op
      case Open(id) => OpenIn(s.panes, k, x) || (k == WsKey(data, id) && x == id)
      case Close(id) => OpenIn(s.panes, k, x) && !(k == WsKey(data, id) && x == id)
      case _ => OpenIn(s.panes, k, x)
  {
    hide OpenIn, WsKey, PanesWithout, Refocused;
    match op
    case Open(id) => OpenedIn(data, s, id, k, x);
    case Close(id) =>
      RefocusKeepsPanes(s.(panes := PanesWithout(data, s.panes, id)));
      ClosedIn(data, s.panes, id, k, x);
    case ResizeFocused(dir) => ResizedIn(s, dir, k, x);
    case _ =>
  }

  lemma NextKeepsGroups(data: Data, s: State, op: Op)
    requires InOwnGroups(data, s.panes)
    ensures InOwnGroups(data, Next(data, s, op).panes)
  {
    hide OpenIn, WsKey, Next;
    forall k, x | OpenIn(Next(data, s, op).panes, k, x) ensures WsKey(data, x) == k {
      NextOpenIn(data, s, op, k, x);
    }
  }

  /** Every operation keeps the invariant. */
  lemma NextKeeps(data: Data, s: State, op: Op)
    requires Good(data, s)
    ensures Good(data, Next(data, s, op))
  {
    hide Sound, InOwnGroups, Next;
    NextIsSound(data, s, op);
    NextKeepsGroups(data, s, op);
  }

  ghost function Run(data: Data, ops: seq<Op>): State {
    if ops == [] then INITIAL else Next(data, Run(data, ops[..|ops| - 1]), ops[|ops| - 1])
  }

  /** Over every run of pane operations with fixed data the invariant holds; in particular no agent
      is ever open in two groups. */
  lemma {:induction false} RunIsGood(data: Data, ops: seq<Op>)
    ensures Good(data, Run(data, ops))
    ensures forall k, l, id :: OpenIn(Run(data, ops).panes, k, id) && OpenIn(Run(data, ops).panes, l, id) ==> k == l
  {
    hide Next, WsKey, OpenIn;
    if ops == [] {
      StartIsGood(data);
    } else {
      RunIsGood(data, ops[..|ops| - 1]);
      NextKeeps(data, Run(data, ops[..|ops| - 1]), ops[|ops| - 1]);
    }
  }

  lemma StartIsGood(data: Data)
    ensures Good(data, INITIAL)
  {
  }

  /** A run during which the data may be refreshed at any point. */
  datatype Event = Act(op: Op) | Refresh(data: Data)

  ghost function RunEvents(data: Data, events: seq<Event>): (Data, State) {
    if events == [] then (data, INITIAL)
    else
      var (d, s) := RunEvents(data, events[..|events| - 1]);
      match events[|events| - 1]
      case Act(op) => (d, Next(d, s, op))
      case Refresh(newData) => (newData, AfterRefresh(newData, s))
  }

  /** Distinct panes in every group, ratios and focus survive any refresh; only the groups do not. */
  lemma {:induction false} RefreshedRunIsSound(data: Data, events: seq<Event>)
    ensures Sound(RunEvents(data, events).1)
  {
    hide Next;
    if events == [] {
      StartIsGood(data);
    } else {
      RefreshedRunIsSound(data, events[..|events| - 1]);
      var (d, s) := RunEvents(data, events[..|events| - 1]);
      if events[|events| - 1].Act? { NextIsSound(d, s, events[|events| - 1].op); }
    }
  }

  /** Opening adds the one agent to what is open, in its own group, and focuses it; every other
      group keeps its tree. */
  lemma OpenAdds(data: Data, s: State, id: string, x: string)
    ensures var after := AfterOpen(data, s, id);
      && (IsOpen(after.panes, x) <==> IsOpen(s.panes, x) || x == id)
      && after.ActivePanes().Some? && after.ActivePanes().value.Contains(id) && after.focusedPane == Some(id)
      && after.panes - {WsKey(data, id)} == s.panes - {WsKey(data, id)}
      && after.activeWs == Some(WsKey(data, id)) && after.focus == Panes && !after.zoomed
      && after.wsSelected == s.wsSelected && after.splitOrient == s.splitOrient
  {
    hide WsKey, Opened;
    var key, after := WsKey(data, id), AfterOpen(data, s, id);
    OpenedIn(data, s, id, key, id);
    assert after.panes - {key} == s.panes - {key};
    hide OpenIn, AfterOpen;
    forall k ensures OpenIn(after.panes, k, x) <==> OpenIn(s.panes, k, x) || (k == key && x == id) {
      OpenedIn(data, s, id, k, x);
    }
  }

  /** What closing does in any state: the agent's pane in the group its key names now is gone, and
      every other pane stays. */
  lemma CloseRemoves(data: Data, s: State, id: string, x: string)
    ensures IsOpen(AfterClose(data, s, id).panes, x)
       <==> exists k :: OpenIn(s.panes, k, x) && (x == id ==> k != WsKey(data, id))
  {
    hide WsKey, OpenIn, AfterClose;
    forall k
      ensures OpenIn(AfterClose(data, s, id).panes, k, x)
         <==> OpenIn(s.panes, k, x) && !(k == WsKey(data, id) && x == id)
    {
      NextOpenIn(data, s, Close(id), k, x);
    }
  }

  /** A focus on another agent stays where it is. */
  lemma CloseKeepsFocus(data: Data, s: State, id: string)
    requires GoodFocus(s) && s.focusedPane.Some? && s.focusedPane.value != id
    ensures var after := AfterClose(data, s, id);
      after.focusedPane == s.focusedPane && after.activeWs == s.activeWs &&
      after.focus == s.focus && after.zoomed == s.zoomed
  {
    hide WsKey;
    var key := WsKey(data, id);
    if key in s.panes { WithoutMembers(s.panes[key], id, s.focusedPane.value); }
  }

  // ----- what undoes what -----

  /** Opening a new agent and closing it again leaves every group as it was. */
  lemma OpenThenClose(data: Data, s: State, id: string)
    requires Good(data, s) && (WsKey(data, id) in s.panes ==> !s.panes[WsKey(data, id)].Contains(id))
    ensures AfterClose(data, AfterOpen(data, s, id), id).panes == s.panes
  {
    var key := WsKey(data, id);
    var withPane := AfterOpen(data, s, id).panes;
    if key in s.panes {
      var t := s.panes[key];
      var ids := t.Leaves();
      var target :=
        if s.focusedPane.Some? && t.Contains(s.focusedPane.value) then s.focusedPane.value else ids[|ids| - 1];
      SplitThenWithout(t, target, id, s.splitOrient);
    }
    assert PanesWithout(data, withPane, id) == s.panes;
  }

  // ----- when the data changes under open panes -----

  /** Fresh data keeps every pane in the group of its agent exactly when no open agent changes its
      group. */
  lemma NewDataKeepsIff(data: Data, newData: Data, s: State)
    requires Good(data, s)
    ensures Good(newData, s) <==> forall id :: IsOpen(s.panes, id) ==> WsKey(newData, id) == WsKey(data, id)
  {
    hide OpenIn, WsKey;
  }

  /** In any state, opening an agent leaves all panes alone exactly when it is open in the group
      its key names now. */
  lemma OpenOnlyFocusesIff(data: Data, s: State, id: string)
    ensures AfterOpen(data, s, id).panes == s.panes <==> OpenIn(s.panes, WsKey(data, id), id)
  {
    hide WsKey;
    var key := WsKey(data, id);
    if OpenIn(s.panes, key, id) {
      assert AfterOpen(data, s, id).panes == s.panes[key := s.panes[key]];
    } else {
      OpenedIn(data, s, id, key, id);
    }
  }

  /** In any state, closing an agent closes it exactly when it is open in no other group than the
      one its key names now. */
  lemma CloseClosesIff(data: Data, s: State, id: string)
    ensures !IsOpen(AfterClose(data, s, id).panes, id) <==> forall k :: OpenIn(s.panes, k, id) ==> k == WsKey(data, id)
  {
    hide WsKey, OpenIn, AfterClose;
    CloseRemoves(data, s, id, id);
  }

  /** So opening an open agent again leaves all panes alone, as promised, exactly when its own group
      has not changed since it was opened. */
  lemma ReopenOnlyFocusesIff(data: Data, newData: Data, s: State, id: string)
    requires InOwnGroups(data, s.panes) && IsOpen(s.panes, id)
    ensures AfterOpen(newData, s, id).panes == s.panes <==> WsKey(newData, id) == WsKey(data, id)
  {
    hide WsKey, OpenIn, AfterOpen;
    OpenOnlyFocusesIff(newData, s, id);
    var k :| OpenIn(s.panes, k, id);
    assert k == WsKey(data, id);
  }

  /** And then it ends up open exactly once; otherwise twice. */
  lemma ReopenedTwiceIff(data: Data, newData: Data, s: State, id: string)
    requires InOwnGroups(data, s.panes) && IsOpen(s.panes, id)
    ensures forall k ::
      OpenIn(AfterOpen(newData, s, id).panes, k, id) <==> k == WsKey(data, id) || k == WsKey(newData, id)
  {
    hide WsKey, OpenIn, AfterOpen;
    var was :| OpenIn(s.panes, was, id);
    forall k
      ensures OpenIn(AfterOpen(newData, s, id).panes, k, id) <==> k == WsKey(data, id) || k == WsKey(newData, id)
    {
      OpenedIn(newData, s, id, k, id);
    }
  }

  /** And closing it closes it exactly then; otherwise the pane stays. */
  lemma CloseAfterRefreshIff(data: Data, newData: Data, s: State, id: string)
    requires InOwnGroups(data, s.panes) && IsOpen(s.panes, id)
    ensures !IsOpen(AfterClose(newData, s, id).panes, id) <==> WsKey(newData, id) == WsKey(data, id)
  {
    hide WsKey, OpenIn, AfterClose;
    CloseClosesIff(newData, s, id);
    var k :| OpenIn(s.panes, k, id);
    assert k == WsKey(data, id);
  }

  /** A task opened while its repository is not registered, then registered. */
  const BEFORE := Data([TaskView("t", "r")], [])
  const REGISTERED := Data([TaskView("t", "r")], ["r"])

  lemma KeyChanges()
    ensures WsKey(BEFORE, "t") == OTHER_WS_KEY && WsKey(REGISTERED, "t") == "r" != OTHER_WS_KEY
  {
    assert OTHER_WS_KEY[0] != "r"[0];
  }

  /** Opening it again then opens it twice. */
  lemma RegisteredWhileOpen()
    ensures AfterOpen(REGISTERED, AfterOpen(BEFORE, INITIAL, "t"), "t").panes
         == map[OTHER_WS_KEY := Leaf("t"), "r" := Leaf("t")]
  {
    KeyChanges();
  }

  /** And closing it leaves its pane open: the run registers the repository of an open agent and
      terminates the agent. */
  lemma TerminatedButOpen()
    ensures var (d, s) := RunEvents(BEFORE, [Act(Open("t")), Refresh(REGISTERED), Act(Close("t"))]);
      d == REGISTERED && s.panes == map[OTHER_WS_KEY := Leaf("t")] && s.focusedPane == Some("t")
  {
    var first, refreshed := [Act(Open("t"))], [Act(Open("t")), Refresh(REGISTERED)];
    var all := [Act(Open("t")), Refresh(REGISTERED), Act(Close("t"))];
    assert first[..0] == [] && refreshed[..1] == first && all[..2] == refreshed;
    KeyChanges();
    hide WsKey;
    var s := AfterOpen(BEFORE, INITIAL, "t");
    assert RunEvents(BEFORE, first) == (BEFORE, s) by { assert RunEvents(BEFORE, []) == (BEFORE, INITIAL); }
    assert RunEvents(BEFORE, refreshed) == (REGISTERED, AfterRefresh(REGISTERED, s));
    assert RunEvents(BEFORE, all) == (REGISTERED, AfterClose(REGISTERED, AfterRefresh(REGISTERED, s), "t"));
    hide RunEvents;
    assert AfterRefresh(REGISTERED, s) == s;
    assert PanesWithout(REGISTERED, s.panes, "t") == s.panes;
    assert s.ActivePanes() == Some(Leaf("t"));
  }

  // ----- the object -----

  /** The pane part of the client's model, with its fields updated in place. */
  class Model {
    var data: Data
    var wsSelected: nat
    var focus: Focus
    var panes: map<string, Layout>
    var activeWs: Option<string>
    var focusedPane: Option<string>
    var splitOrient: Orient
    var zoomed: bool

    ghost function Now(): State
      reads this
    {
      State(wsSelected, focus, panes, activeWs, focusedPane, splitOrient, zoomed)
    }

    constructor (data: Data)
      ensures this.data == data && Now() == INITIAL
    {
      this.data := data;
      wsSelected, focus, panes, activeWs, focusedPane, splitOrient, zoomed :=
        0, Sidebar, map[], None, None, Cols, false;
    }

    method SetData(newData: Data)
      modifies this
      ensures data == newData && Now() == AfterRefresh(newData, old(Now()))
    {
      data := newData;
      var rows := RowCount(data);
      if wsSelected >= rows {
        wsSelected := SaturatingSub(rows, 1);
      }
    }

    method OpenPane(id: string)
      modifies this
      ensures data == old(data) && Now() == Next(data, old(Now()), Open(id))
    {
      focus := Panes;
      zoomed := false;
      var key := WsKey(data, id);
      if key !in panes {
        panes := panes[key := Leaf(id)];
      } else {
        var layout := panes[key];
        if !layout.Contains(id) {
          var target := if focusedPane.Some? && layout.Contains(focusedPane.value) then focusedPane.value
                        else layout.Leaves()[|layout.Leaves()| - 1];
          panes := panes[key := SplitLeaf(layout, target, id, splitOrient).layout];
        } else {
          assert panes[key := layout] == panes;
        }
      }
      activeWs := Some(key);
      focusedPane := Some(id);
    }

    method ClosePane(id: string)
      modifies this
      ensures data == old(data) && Now() == Next(data, old(Now()), Close(id))
    {
      var key := WsKey(data, id);
      if key in panes {
        var layout := panes[key];
        ghost var before := panes;
        panes := panes - {key};
        var next := Without(layout, id);
        if next.Some? {
          panes := panes[key := next.value];
          assert panes == before[key := next.value];
        }
      }
      if activeWs.Some? && activeWs.value in panes {
        var layout := panes[activeWs.value];
        if focusedPane.None? || !layout.Contains(focusedPane.value) {
          focusedPane := Some(layout.Leaves()[0]);
        }
      } else if panes.Keys != {} {
        LeastKeyExists(panes.Keys);
        var k :| IsLeastKey(panes.Keys, k);
        LeastKeyIsUnique(panes.Keys, k, LeastKey(panes.Keys));
        activeWs := Some(k);
        focusedPane := Some(panes[k].Leaves()[0]);
      } else {
        activeWs, focusedPane, focus, zoomed := None, None, Sidebar, false;
      }
    }

    method SelectRow(row: nat)
      modifies this
      ensures data == old(data) && Now() == Next(data, old(Now()), Select(row))
    {
      wsSelected := row;
      var key := RowKey(data, row);
      if key.None? {
        return;
      }
      activeWs := key;
      focusedPane := if key.value in panes then Some(panes[key.value].Leaves()[0]) else None;
      zoomed := false;
    }

    method ToggleZoom()
      modifies this
      ensures data == old(data) && Now() == Next(data, old(Now()), Op.ToggleZoom)
    {
      if focusedPane.Some? {
        zoomed := !zoomed;
      }
    }

    method ResizeFocused(dir: Dir)
      modifies this
      ensures data == old(data) && Now() == Next(data, old(Now()), Op.ResizeFocused(dir))
    {
      if focusedPane.None? || activeWs.None? || activeWs.value !in panes {
        return;
      }
      var axisCols := dir == Left || dir == Right;
      var delta := if dir == Right || dir == Down then 5 else -5;
      panes := panes[activeWs.value := Resize(panes[activeWs.value], focusedPane.value, axisCols, delta).layout];
    }

    method FocusDir(dir: Dir, area: Rect, divide: Divider)
      modifies this
      ensures data == old(data) && Now() == Next(data, old(Now()), Op.FocusDir(dir, area, divide))
    {
      if activeWs.None? || activeWs.value !in panes {
        return;
      }
      var placed := LeafRects(panes[activeWs.value], area, divide);
      var cur := CurrentRect(placed, focusedPane);
      if cur.None? || focusedPane.None? {
        return;
      }
      var best := FindNearest(placed, focusedPane.value, cur.value, dir);
      forall i: nat | IsNearest(placed, focusedPane.value, cur.value, dir, Some(i)) ensures best == Some(i) {
        NearestIsUnique(placed, focusedPane.value, cur.value, dir, best, Some(i));
      }
      if best.Some? {
        focusedPane := Some(placed[best.value].id);
      }
    }

    method FocusPaneAt(col: nat, row: nat, area: Rect, divide: Divider) returns (hit: bool)
      modifies this
      ensures data == old(data) && Now() == Next(data, old(Now()), FocusAt(col, row, area, divide))
      ensures hit == (old(Now()).ActivePanes().Some? &&
        FirstCovering(LeafRects(old(Now()).ActivePanes().value, area, divide), col, row).Some?)
    {
      if activeWs.None? || activeWs.value !in panes {
        return false;
      }
      var placed := LeafRects(panes[activeWs.value], area, divide);
      for i := 0 to |placed|
        invariant FirstCovering(placed, col, row) == FirstCovering(placed[i..], col, row)
        invariant Now() == old(Now()) && data == old(data)
      {
        if placed[i].rect.Covers(col, row) {
          focusedPane := Some(placed[i].id);
          focus := Panes;
          return true;
        }
      }
      hit := false;
    }
  }
}
