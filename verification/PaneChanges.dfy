/** What pane operations do to the screen (crates/memmux/src/app.rs): which rectangles change, which
    ratio moves, which pane gets the focus and which rows lead to which group. */
module PaneChanges {
  import opened PaneGeometry
  import opened PaneLayout
  import opened PaneModel
  import opened Prelude

  // ----- opening -----

  /** The panes after pane `i` was divided in equal shares along the given direction, the new pane second. */
  function Divided(placed: seq<Placed>, i: nat, newId: string, orient: Orient, divide: Divider): seq<Placed>
    requires i < |placed|
  {
    var (first, second) := divide(orient, 50, placed[i].rect);
    placed[..i] + [Placed(placed[i].id, first), Placed(newId, second)] + placed[i + 1..]
  }

  lemma DividedInConcat(a: seq<Placed>, b: seq<Placed>, i: nat, newId: string, orient: Orient, divide: Divider)
    ensures i < |a| ==> Divided(a, i, newId, orient, divide) + b == Divided(a + b, i, newId, orient, divide)
    ensures i < |b| ==> a + Divided(b, i, newId, orient, divide) == Divided(a + b, |a| + i, newId, orient, divide)
  {
    if i < |a| {
      assert (a + b)[..i] == a[..i] && (a + b)[i + 1..] == a[i + 1..] + b;
    }
    if i < |b| {
      assert (a + b)[..|a| + i] == a + b[..i] && (a + b)[|a| + i + 1..] == b[i + 1..];
    }
  }

  /** Pane `i` is the first of this agent. */
  predicate FirstOf(placed: seq<Placed>, i: nat, id: string) {
    i < |placed| && placed[i].id == id && forall j :: 0 <= j < i ==> placed[j].id != id
  }

  lemma FirstOfConcat(t: Layout, area: Rect, divide: Divider, b: seq<Placed>, i: nat, id: string)
    ensures FirstOf(LeafRects(t, area, divide), i, id) ==> FirstOf(LeafRects(t, area, divide) + b, i, id)
    ensures FirstOf(b, i, id) && !t.Contains(id) ==>
      FirstOf(LeafRects(t, area, divide) + b, |LeafRects(t, area, divide)| + i, id)
  {
    LeafRectsAreLeaves(t, area, divide);
    hide LeafRects;
    assert forall j :: 0 <= j < |LeafRects(t, area, divide)| ==> LeafRects(t, area, divide)[j].id in t.Leaves();
  }

  /** A split divides the rectangle of its target, and moves no other pane. */
  lemma {:induction false} SplitDividesTarget(t: Layout, target: string, newId: string, orient: Orient,
                                              area: Rect, divide: Divider) returns (i: nat)
    requires t.Contains(target)
    ensures FirstOf(LeafRects(t, area, divide), i, target)
    ensures LeafRects(SplitLeaf(t, target, newId, orient).layout, area, divide)
         == Divided(LeafRects(t, area, divide), i, newId, orient, divide)
  {
    match t
    case Leaf(id) =>
      i := 0;
      LeafIsDivided(id, target, newId, orient, area, divide);
    case Split(o, ratio, a, b) =>
      hide *;
      var (p, q) := divide(o, Clamp(ratio), area);
      var inA, inB := LeafRects(a, p, divide), LeafRects(b, q, divide);
      SplitOfSplit(t, target, newId, orient);
      RectsOfSplit(o, ratio, a, b, area, divide);
      if a.Contains(target) {
        i := SplitDividesTarget(a, target, newId, orient, p, divide);
        RectsOfSplit(o, ratio, SplitLeaf(a, target, newId, orient).layout, b, area, divide);
        DividedFirst(a, p, inB, i, target, newId, orient, divide);
      } else {
        var k := SplitDividesTarget(b, target, newId, orient, q, divide);
        i := |inA| + k;
        RectsOfSplit(o, ratio, a, SplitLeaf(b, target, newId, orient).layout, area, divide);
        DividedSecond(a, p, inB, k, target, newId, orient, divide);
      }
  }

  lemma DividedFirst(a: Layout, p: Rect, inB: seq<Placed>, i: nat, target: string, newId: string, orient: Orient,
                     divide: Divider)
    requires FirstOf(LeafRects(a, p, divide), i, target)
    ensures FirstOf(LeafRects(a, p, divide) + inB, i, target)
    ensures Divided(LeafRects(a, p, divide), i, newId, orient, divide) + inB
         == Divided(LeafRects(a, p, divide) + inB, i, newId, orient, divide)
  {
    FirstIsThere(LeafRects(a, p, divide), i, target);
    hide *;
    FirstOfConcat(a, p, divide, inB, i, target);
    DividedInConcat(LeafRects(a, p, divide), inB, i, newId, orient, divide);
  }

  lemma DividedSecond(a: Layout, p: Rect, inB: seq<Placed>, i: nat, target: string, newId: string, orient: Orient,
                      divide: Divider)
    requires FirstOf(inB, i, target) && !a.Contains(target)
    ensures var inA := LeafRects(a, p, divide);
      && FirstOf(inA + inB, |inA| + i, target)
      && inA + Divided(inB, i, newId, orient, divide) == Divided(inA + inB, |inA| + i, newId, orient, divide)
  {
    FirstIsThere(inB, i, target);
    hide *;
    FirstOfConcat(a, p, divide, inB, i, target);
    DividedInConcat(LeafRects(a, p, divide), inB, i, newId, orient, divide);
  }

  lemma LeafIsDivided(id: string, target: string, newId: string, orient: Orient, area: Rect, divide: Divider)
    requires Leaf(id).Contains(target)
    ensures FirstOf(LeafRects(Leaf(id), area, divide), 0, target)
    ensures LeafRects(SplitLeaf(Leaf(id), target, newId, orient).layout, area, divide)
         == Divided(LeafRects(Leaf(id), area, divide), 0, newId, orient, divide)
  {
  }

  lemma RectsOfSplit(orient: Orient, ratio: int, a: Layout, b: Layout, area: Rect, divide: Divider)
    ensures var (p, q) := divide(orient, Clamp(ratio), area);
      LeafRects(Split(orient, ratio, a, b), area, divide) == LeafRects(a, p, divide) + LeafRects(b, q, divide)
  {
  }

  lemma SplitOfSplit(t: Layout, target: string, newId: string, orient: Orient)
    requires t.Split? && t.Contains(target)
    ensures SplitLeaf(t, target, newId, orient).layout ==
      if t.a.Contains(target) then Split(t.orient, t.ratio, SplitLeaf(t.a, target, newId, orient).layout, t.b)
      else Split(t.orient, t.ratio, t.a, SplitLeaf(t.b, target, newId, orient).layout)
    ensures t.a.Contains(target) || t.b.Contains(target)
  {
    SplitLeaves(t.a, target, newId, orient);
  }

  lemma FirstIsThere(placed: seq<Placed>, i: nat, id: string)
    requires FirstOf(placed, i, id)
    ensures i < |placed| && placed[i].id == id
  {
  }

  /** Opening a new agent in an open group: it takes the second half of the focused pane, or of the
      last one when the focus is elsewhere, in the chosen direction. No other pane moves. The new pane
      is shown with the keyboard on it and without zoom. */
  lemma OpenDividesFocused(data: Data, s: State, id: string, area: Rect, divide: Divider) returns (i: nat)
    requires WsKey(data, id) in s.panes && !s.panes[WsKey(data, id)].Contains(id)
    ensures var t := s.panes[WsKey(data, id)];
      var placed, after := LeafRects(t, area, divide), AfterOpen(data, s, id);
      && i < |placed|
      && (if s.focusedPane.Some? && t.Contains(s.focusedPane.value) then FirstOf(placed, i, s.focusedPane.value)
          else FirstOf(placed, i, placed[|placed| - 1].id))
      && after.ActivePanes().Some?
      && LeafRects(after.ActivePanes().value, area, divide) == Divided(placed, i, id, s.splitOrient, divide)
      && after.focusedPane == Some(id) && after.focus == Panes && !after.zoomed
  {
    hide WsKey, LeafRects, SplitLeaf;
    var t := s.panes[WsKey(data, id)];
    var ids := t.Leaves();
    var target := if s.focusedPane.Some? && t.Contains(s.focusedPane.value) then s.focusedPane.value
                  else ids[|ids| - 1];
    LeafRectsAreLeaves(t, area, divide);
    i := SplitDividesTarget(t, target, id, s.splitOrient, area, divide);
  }

  /** The direction chosen last is the one in which the next new pane divides the focused one; choosing it,
      or moving the keyboard to the sidebar and back to the pane, changes nothing on the screen. */
  lemma ChosenDirection(data: Data, s: State, orient: Orient, id: string, area: Rect, divide: Divider)
    returns (i: nat)
    requires Good(data, s) && s.focusedPane.Some? && s.activeWs == Some(WsKey(data, id))
    requires !s.panes[WsKey(data, id)].Contains(id)
    ensures var chosen := Next(data, Next(data, s, SetOrient(orient)), FocusSidebar);
      var placed, after := LeafRects(s.ActivePanes().value, area, divide), Next(data, chosen, Open(id));
      && chosen == s.(splitOrient := orient, focus := Sidebar)
      && FirstOf(placed, i, s.focusedPane.value) && after.ActivePanes().Some? && after.focus == Panes
      && LeafRects(after.ActivePanes().value, area, divide) == Divided(placed, i, id, orient, divide)
  {
    hide WsKey, LeafRects, FirstOf, Divided;
    i := OpenDividesFocused(data, s.(splitOrient := orient, focus := Sidebar), id, area, divide);
  }

  /** The first agent of a group fills the grid. */
  lemma OpenFirstFills(data: Data, s: State, id: string, area: Rect, divide: Divider)
    requires WsKey(data, id) !in s.panes
    ensures var after := AfterOpen(data, s, id);
      && after.ActivePanes().Some? && LeafRects(after.ActivePanes().value, area, divide) == [Placed(id, area)]
      && after.focusedPane == Some(id) && after.focus == Panes && !after.zoomed
  {
    hide WsKey;
  }

  // ----- closing -----

  /** A split of a pane and another subtree, in either order. */
  predicate SplitsOff(node: Layout, id: string, sibling: Layout) {
    node.Split? && ((node.a == Leaf(id) && node.b == sibling) || (node.b == Leaf(id) && node.a == sibling))
  }

  lemma AbsentIn(a: Layout, b: Layout, id: string)
    requires NoDuplicates(a.Leaves() + b.Leaves())
    ensures a.Contains(id) ==> !b.Contains(id)
    ensures NoDuplicates(a.Leaves()) && NoDuplicates(b.Leaves())
  {
    var s, t := a.Leaves(), b.Leaves();
    assert forall i :: 0 <= i < |s| ==> (s + t)[i] == s[i];
    assert forall j :: 0 <= j < |t| ==> (s + t)[|s| + j] == t[j];
  }

  lemma Regrouped(a: seq<Placed>, b: seq<Placed>, c: seq<Placed>, d: seq<Placed>)
    ensures a + (b + c + d) == a + b + c + d && b + c + d + a == b + c + (d + a)
  {
  }

  /** Closing one of several panes gives its room to the other side of its split, and moves no other pane:
      the panes of that split are replaced by those of the sibling, laid out in the whole rectangle. */
  lemma {:induction false} CloseGivesRoom(t: Layout, id: string, area: Rect, divide: Divider)
    returns (before: seq<Placed>, node: Layout, sibling: Layout, rect: Rect, after: seq<Placed>)
    requires t.Split? && t.Contains(id) && NoDuplicates(t.Leaves())
    ensures SplitsOff(node, id, sibling) && Without(t, id).Some?
    ensures LeafRects(t, area, divide) == before + LeafRects(node, rect, divide) + after
    ensures LeafRects(Without(t, id).value, area, divide) == before + LeafRects(sibling, rect, divide) + after
  {
    var (p, q) := divide(t.orient, Clamp(t.ratio), area);
    AbsentIn(t.a, t.b, id);
    if t.a.Contains(id) {
      WithoutAbsent(t.b, id);
      if t.a.Leaf? {
        before, node, sibling, rect, after := [], t, t.b, area, [];
      } else {
        before, node, sibling, rect, after := CloseGivesRoom(t.a, id, p, divide);
        assert LeafRects(t, area, divide) == LeafRects(t.a, p, divide) + LeafRects(t.b, q, divide);
        assert LeafRects(Without(t, id).value, area, divide)
            == LeafRects(Without(t.a, id).value, p, divide) + LeafRects(t.b, q, divide);
        hide *;
        Regrouped(LeafRects(t.b, q, divide), before, LeafRects(node, rect, divide), after);
        Regrouped(LeafRects(t.b, q, divide), before, LeafRects(sibling, rect, divide), after);
        after := after + LeafRects(t.b, q, divide);
      }
    } else {
      WithoutAbsent(t.a, id);
      if t.b.Leaf? {
        before, node, sibling, rect, after := [], t, t.a, area, [];
      } else {
        before, node, sibling, rect, after := CloseGivesRoom(t.b, id, q, divide);
        assert LeafRects(t, area, divide) == LeafRects(t.a, p, divide) + LeafRects(t.b, q, divide);
        assert LeafRects(Without(t, id).value, area, divide)
            == LeafRects(t.a, p, divide) + LeafRects(Without(t.b, id).value, q, divide);
        hide *;
        Regrouped(LeafRects(t.a, p, divide), before, LeafRects(node, rect, divide), after);
        Regrouped(LeafRects(t.a, p, divide), before, LeafRects(sibling, rect, divide), after);
        before := LeafRects(t.a, p, divide) + before;
      }
    }
  }

  // ----- resizing -----

  /** The share of the first child after a step: five points more towards the right or down, five less
      towards the left or up, never outside 10 to 90. */
  function Stepped(dir: Dir, ratio: int): int {
    match dir
    case Right => if ratio + 5 > 90 then 90 else if ratio + 5 < 10 then 10 else ratio + 5
    case Down => if ratio + 5 > 90 then 90 else if ratio + 5 < 10 then 10 else ratio + 5
    case Left => if ratio - 5 < 10 then 10 else if ratio - 5 > 90 then 90 else ratio - 5
    case Up => if ratio - 5 < 10 then 10 else if ratio - 5 > 90 then 90 else ratio - 5
  }

  /** Columns are resized sideways, rows up and down. */
  predicate Along(dir: Dir, orient: Orient) {
    match orient
    case Cols => dir == Left || dir == Right
    case Rows => dir == Up || dir == Down
  }

  /** A split along the direction of the resize, so many turns down a path. */
  predicate SplitAlong(t: Layout, path: seq<bool>, depth: nat, dir: Dir) {
    depth < |path| && OnTree(t, path[..depth]) &&
    NodeAt(t, path[..depth]).Split? && Along(dir, NodeAt(t, path[..depth]).orient)
  }

  lemma GovernsIff(t: Layout, path: seq<bool>, depth: nat, dir: Dir)
    ensures Governs(t, path, depth, dir == Left || dir == Right) <==> SplitAlong(t, path, depth, dir)
  {
  }

  /** A resize takes one step at the nearest split around the focused pane that lies along the
      direction, and changes nothing else; without one it changes nothing. */
  lemma ResizeStepsNearest(s: State, dir: Dir) returns (depth: nat)
    requires Sound(s) && s.focusedPane.Some?
    ensures var t := s.ActivePanes().value;
      var path, after := PathTo(t, s.focusedPane.value), AfterResize(s, dir);
      && (if SplitAlong(t, path, depth, dir)
          then after == s.(panes := s.panes[s.activeWs.value :=
                 WithRatio(t, path[..depth], Stepped(dir, NodeAt(t, path[..depth]).ratio))])
            && forall d: nat | d > depth :: !SplitAlong(t, path, d, dir)
          else after == s && forall d: nat :: !SplitAlong(t, path, d, dir))
  {
    hide Resize, SplitAlong, PathTo, WithRatio, Governs;
    var t, focused := s.ActivePanes().value, s.focusedPane.value;
    var path := PathTo(t, focused);
    depth := ResizeMovesDeepest(t, focused, dir == Left || dir == Right, if dir == Right || dir == Down then 5 else -5);
    forall d: nat ensures Governs(t, path, d, dir == Left || dir == Right) <==> SplitAlong(t, path, d, dir) {
      GovernsIff(t, path, d, dir);
    }
    if !Resize(t, focused, dir == Left || dir == Right, if dir == Right || dir == Down then 5 else -5).changed {
      assert s.panes[s.activeWs.value := t] == s.panes;
    }
  }

  // ----- focus without a direction -----

  /** The first part of a divided rectangle keeps its corner. */
  ghost predicate KeepsCorner(divide: Divider) {
    forall orient, ratio, r | 10 <= ratio <= 90 :: SameCorner(divide(orient, ratio, r).0, r)
  }

  predicate SameCorner(a: Rect, b: Rect) { a.x == b.x && a.y == b.y }

  /** The first pane is the one in the corner of the grid. */
  lemma {:induction false} FirstIsInCorner(t: Layout, area: Rect, divide: Divider)
    requires KeepsCorner(divide)
    ensures var placed := LeafRects(t, area, divide);
      |placed| > 0 && placed[0].id == t.Leaves()[0] && SameCorner(placed[0].rect, area)
  {
    if t.Split? {
      assert SameCorner(divide(t.orient, Clamp(t.ratio), area).0, area);
      FirstIsInCorner(t.a, divide(t.orient, Clamp(t.ratio), area).0, divide);
    }
  }

  /** The group shown and focused in its corner pane. */
  ghost predicate ShowsCornerOf(after: State, key: string, area: Rect, divide: Divider) {
    && after.activeWs == Some(key) && after.ActivePanes().Some? && after.focusedPane.Some?
    && var placed := LeafRects(after.ActivePanes().value, area, divide);
    && |placed| > 0 && placed[0].id == after.focusedPane.value && SameCorner(placed[0].rect, area)
  }

  /** Selecting the row of an open group shows that group with the focus in its corner pane, without
      zoom; of a group that is not open, nothing is shown. The panes stay. */
  lemma SelectShows(data: Data, s: State, row: nat, area: Rect, divide: Divider)
    requires KeepsCorner(divide)
    ensures var after := AfterSelect(data, s, row);
      && after.wsSelected == row && after.panes == s.panes && after.focus == s.focus
      && match RowKey(data, row)
         case None => after == s.(wsSelected := row)
         case Some(key) =>
           && !after.zoomed
           && (key in s.panes ==> ShowsCornerOf(after, key, area, divide))
           && (key !in s.panes ==> after.activeWs == Some(key) && after.focusedPane == None)
  {
    hide RowKey, LeafRects;
    var key := RowKey(data, row);
    if key.Some? && key.value in s.panes { FirstIsInCorner(s.panes[key.value], area, divide); }
  }

  /** Where the focus goes when the focused pane is closed: to the corner pane of its group while that
      is open, else to the corner pane of the first other group, else back to the sidebar. */
  lemma CloseRefocuses(data: Data, s: State, id: string, area: Rect, divide: Divider)
    requires Good(data, s) && s.focusedPane == Some(id) && KeepsCorner(divide)
    ensures var key, after := WsKey(data, id), AfterClose(data, s, id);
      && s.activeWs == Some(key)
      && (key in after.panes ==> ShowsCornerOf(after, key, area, divide))
      && (key !in after.panes && after.panes != map[] ==>
            exists k :: IsLeastKey(after.panes.Keys, k) && ShowsCornerOf(after, k, area, divide))
      && (after.panes == map[] ==> after == s.(panes := map[], activeWs := None, focusedPane := None,
                                               focus := Sidebar, zoomed := false))
  {
    hide WsKey, LeafRects, OpenIn;
    var key, after := WsKey(data, id), AfterClose(data, s, id);
    assert OpenIn(s.panes, s.activeWs.value, id) by { FocusedIsOpen(s); }
    assert s.activeWs == Some(key);
    WithoutMembers(s.panes[key], id, id);
    if key in after.panes {
      assert !after.panes[key].Contains(id);
      FirstIsInCorner(after.panes[key], area, divide);
    } else if after.panes != map[] {
      FirstIsInCorner(after.panes[LeastKey(after.panes.Keys)], area, divide);
    }
  }

  lemma FocusedIsOpen(s: State)
    requires Sound(s) && s.focusedPane.Some?
    ensures s.activeWs.Some? && OpenIn(s.panes, s.activeWs.value, s.focusedPane.value)
  {
  }

  /** Zoom is a toggle, for a focused pane only. */
  lemma ZoomIff(s: State)
    ensures AfterZoom(s) != s <==> s.focusedPane.Some?
    ensures AfterZoom(AfterZoom(s)) == s && AfterZoom(s).(zoomed := s.zoomed) == s
  {
  }

  // ----- rows -----

  lemma {:induction false} RepositoryIs(tasks: seq<TaskView>, id: string)
    ensures RepositoryOf(tasks, id).Some? <==> exists i :: 0 <= i < |tasks| && tasks[i].id == id
    ensures RepositoryOf(tasks, id).Some? ==>
      exists i :: 0 <= i < |tasks| && tasks[i].id == id && tasks[i].repository == RepositoryOf(tasks, id).value
  {
    if tasks != [] {
      assert forall i :: 0 <= i < |tasks| - 1 ==> tasks[1..][i] == tasks[i + 1];
      RepositoryIs(tasks[1..], id);
    }
  }

  lemma {:induction false} RepositoryOfFirst(tasks: seq<TaskView>, id: string, i: nat)
    requires i < |tasks| && tasks[i].id == id && forall j :: 0 <= j < i ==> tasks[j].id != id
    ensures RepositoryOf(tasks, id) == Some(tasks[i].repository)
  {
    if i > 0 { RepositoryOfFirst(tasks[1..], id, i - 1); }
  }

  /** The group of an agent: the repository of the first task of that id, if it is a registered workspace,
      else the reserved group. */
  lemma GroupIs(data: Data, id: string, i: nat)
    ensures i < |data.tasks| && data.tasks[i].id == id && (forall j :: 0 <= j < i ==> data.tasks[j].id != id) ==>
      WsKey(data, id) == if data.tasks[i].repository in data.workspaces then data.tasks[i].repository else "\0other"
    ensures (forall j :: 0 <= j < |data.tasks| ==> data.tasks[j].id != id) ==> WsKey(data, id) == "\0other"
  {
    RepositoryIs(data.tasks, id);
    if i < |data.tasks| && data.tasks[i].id == id && forall j :: 0 <= j < i ==> data.tasks[j].id != id {
      RepositoryOfFirst(data.tasks, id, i);
    }
  }

  /** There are as many rows as there are workspaces, and one more exactly when some task belongs to
      none; these rows have keys, and no others. */
  lemma RowsAre(data: Data, row: nat)
    ensures RowKey(data, row).Some? <==> row < RowCount(data)
    ensures RowCount(data) == |data.workspaces| + if exists i | 0 <= i < |data.tasks| ::
      data.tasks[i].repository !in data.workspaces then 1 else 0
  {
  }

  /** The rows lead to the groups: the group of an agent has a row for every agent among the tasks, and
      for any other agent exactly when there is a row for those without a workspace, or a workspace of
      that name. */
  lemma GroupHasRowIff(data: Data, id: string)
    ensures (exists row: nat :: RowKey(data, row) == Some(WsKey(data, id)))
       <==> (exists i :: 0 <= i < |data.tasks| && data.tasks[i].id == id) || RowCount(data) > |data.workspaces|
            || OTHER_WS_KEY in data.workspaces
  {
    RepositoryIs(data.tasks, id);
    var key := WsKey(data, id);
    if key in data.workspaces {
      var row :| 0 <= row < |data.workspaces| && data.workspaces[row] == key;
      assert RowKey(data, row) == Some(key);
    } else if RowCount(data) > |data.workspaces| {
      assert RowKey(data, |data.workspaces|) == Some(key);
    }
  }

  /** After fresh data the selected row stays if it exists; else the last one is selected, if there is one. */
  lemma RefreshKeepsRow(newData: Data, s: State)
    ensures var after := AfterRefresh(newData, s);
      && (RowCount(newData) > 0 ==> RowKey(newData, after.wsSelected).Some?)
      && (RowKey(newData, s.wsSelected).None? ==> RowKey(newData, after.wsSelected + 1).None?)
      && (RowKey(newData, s.wsSelected).Some? ==> after == s)
      && after.(wsSelected := s.wsSelected) == s && after.wsSelected <= s.wsSelected
  {
  }
}
