/** When a spatial focus move goes to the nearest pane, as documented
    (crates/memmux/src/app.rs, `focus_dir`). */
module PaneFocus {
  import opened Prelude
  import opened PaneGeometry
  import opened PaneLayout
  import opened PaneModel

  predicate Inside(r: Rect, area: Rect) {
    && area.x <= r.x && r.x + r.width <= area.x + area.width
    && area.y <= r.y && r.y + r.height <= area.y + area.height
  }

  predicate DividesInside(divide: Divider, orient: Orient, ratio: int, r: Rect) {
    Inside(divide(orient, ratio, r).0, r) && Inside(divide(orient, ratio, r).1, r)
  }

  /** All that is asked of the terminal library: both parts lie in the rectangle that is divided. */
  ghost predicate KeepsInside(divide: Divider) {
    forall orient, ratio, r | 10 <= ratio <= 90 :: DividesInside(divide, orient, ratio, r)
  }

  /** How many columns the centre of one rectangle lies to the right of another's, negative to the left. */
  function ColumnsRight(from: Rect, to: Rect): int { (to.x + to.width / 2) - (from.x + from.width / 2) }

  /** How many rows it lies below, negative above. */
  function RowsDown(from: Rect, to: Rect): int { (to.y + to.height / 2) - (from.y + from.height / 2) }

  /** The centre of a rectangle is strictly on this side of another's. */
  predicate OnSide(dir: Dir, from: Rect, to: Rect) {
    match dir
    case Left => ColumnsRight(from, to) < 0
    case Right => ColumnsRight(from, to) > 0
    case Up => RowsDown(from, to) < 0
    case Down => RowsDown(from, to) > 0
  }

  /** When the centre of some pane is on the side of the direction, focus moves to such a pane, and no
      pane on that side is nearer. */
  ghost predicate MovesToNearest(s: State, dir: Dir, area: Rect, divide: Divider) {
    s.ActivePanes().Some? && s.focusedPane.Some? ==>
      var placed := LeafRects(s.ActivePanes().value, area, divide);
      var from := CurrentRect(placed, s.focusedPane);
      var to := CurrentRect(placed, AfterFocusDir(s, dir, area, divide).focusedPane);
      forall j | 0 <= j < |placed| && from.Some? &&
          OnSide(dir, from.value, placed[j].rect) ::
        to.Some? && NoFarther(dir, from.value, to.value, placed[j].rect)
  }

  predicate NoFarther(dir: Dir, from: Rect, to: Rect, other: Rect) {
    var right, down := ColumnsRight(from, to), RowsDown(from, to);
    var right', down' := ColumnsRight(from, other), RowsDown(from, other);
    OnSide(dir, from, to) && right * right + down * down <= right' * right' + down' * down'
  }

  lemma SideInCoordinates(dir: Dir, from: Rect, to: Rect)
    ensures LiesIn(dir, from, to) <==> OnSide(dir, from, to)
  {
  }

  lemma InCoordinates(dir: Dir, from: Rect, to: Rect)
    ensures LiesIn(dir, from, to) <==> OnSide(dir, from, to)
    ensures SquaredDistance(from, to)
         == ColumnsRight(from, to) * ColumnsRight(from, to) + RowsDown(from, to) * RowsDown(from, to)
  {
    SideInCoordinates(dir, from, to);
    hide LiesIn, OnSide;
  }

  /** The squared distance between any two cells of the grid fits an `i32`. */
  predicate DiagonalFits(area: Rect) {
    area.width * area.width + area.height * area.height < 0x8000_0000
  }

  // ----- a grid whose diagonal fits -----

  lemma {:induction false} PlacedInside(t: Layout, area: Rect, divide: Divider, i: nat)
    requires KeepsInside(divide) && i < |LeafRects(t, area, divide)|
    ensures Inside(LeafRects(t, area, divide)[i].rect, area)
  {
    if t.Split? {
      assert DividesInside(divide, t.orient, Clamp(t.ratio), area);
      var parts := divide(t.orient, Clamp(t.ratio), area);
      var left := LeafRects(t.a, parts.0, divide);
      if i < |left| {
        PlacedInside(t.a, parts.0, divide, i);
      } else {
        PlacedInside(t.b, parts.1, divide, i - |left|);
      }
    }
  }

  lemma SquareGrows(d: int, w: nat)
    requires 0 <= d + w && d <= w
    ensures 0 <= d * d <= w * w
  {
    var m: int := if d < 0 then -d else d;
    assert d * d == m * m && m * m <= m * w <= w * w;
  }

  lemma ExactInside(a: Rect, b: Rect, area: Rect)
    requires Inside(a, area) && Inside(b, area) && DiagonalFits(area)
    ensures Distance(a, b) == SquaredDistance(a, b)
  {
    SquareGrows(b.CenterX() - a.CenterX(), area.width);
    SquareGrows(b.CenterY() - a.CenterY(), area.height);
    var d := SquaredDistance(a, b);
    assert 0 <= d < 0x8000_0000;
  }

  lemma {:induction false} CurrentIsPlaced(placed: seq<Placed>, focused: Option<string>)
    ensures CurrentRect(placed, focused).Some? ==>
      exists i :: 0 <= i < |placed| && focused == Some(placed[i].id) &&
        CurrentRect(placed, focused).value == placed[i].rect
  {
    if placed != [] && focused.Some? && placed[0].id != focused.value {
      CurrentIsPlaced(placed[1..], focused);
    }
  }

  lemma {:induction false} CurrentOf(placed: seq<Placed>, i: nat)
    requires i < |placed| && forall j :: 0 <= j < i ==> placed[j].id != placed[i].id
    ensures CurrentRect(placed, Some(placed[i].id)) == Some(placed[i].rect)
  {
    if i > 0 { CurrentOf(placed[1..], i - 1); }
  }

  /** What a focus move does when a pane is found. */
  lemma FocusMovesTo(s: State, dir: Dir, area: Rect, divide: Divider, i: nat)
    requires s.ActivePanes().Some? && s.focusedPane.Some?
    requires var placed := LeafRects(s.ActivePanes().value, area, divide);
      var from := CurrentRect(placed, s.focusedPane);
      from.Some? && IsNearest(placed, s.focusedPane.value, from.value, dir, Some(i))
    ensures AfterFocusDir(s, dir, area, divide)
         == s.(focusedPane := Some(LeafRects(s.ActivePanes().value, area, divide)[i].id))
  {
    hide IsNearest, CurrentRect, LeafRects;
    var placed := LeafRects(s.ActivePanes().value, area, divide);
    var from := CurrentRect(placed, s.focusedPane).value;
    assert i < |placed| by { NearestIsPlaced(placed, s.focusedPane.value, from, dir, i); }
    forall k: nat | IsNearest(placed, s.focusedPane.value, from, dir, Some(k)) ensures k == i {
      NearestIsUnique(placed, s.focusedPane.value, from, dir, Some(k), Some(i));
    }
  }

  lemma NearestIsPlaced(placed: seq<Placed>, focused: string, cur: Rect, dir: Dir, i: nat)
    requires IsNearest(placed, focused, cur, dir, Some(i))
    ensures i < |placed| && Eligible(placed[i], focused, cur, dir)
  {
  }

  lemma {:induction false} NearestExists(placed: seq<Placed>, focused: string, cur: Rect, dir: Dir)
    returns (best: Option<nat>)
    ensures IsNearest(placed, focused, cur, dir, best)
  {
    if placed == [] {
      best := None;
    } else {
      var n := |placed| - 1;
      var before := NearestExists(placed[..n], focused, cur, dir);
      NextNearest(placed[..n], placed[n], focused, cur, dir, before);
      assert placed == placed[..n] + [placed[n]];
      var wins := Eligible(placed[n], focused, cur, dir) &&
        (before.None? || Distance(cur, placed[n].rect) < Distance(cur, placed[before.value].rect));
      best := if wins then Some(n) else before;
    }
  }

  lemma ExactMeansNearest(placed: seq<Placed>, focused: string, cur: Rect, dir: Dir, i: nat, j: nat, area: Rect)
    requires IsNearest(placed, focused, cur, dir, Some(i)) && DiagonalFits(area) && Inside(cur, area)
    requires j < |placed| && Eligible(placed[j], focused, cur, dir)
    requires forall k :: 0 <= k < |placed| ==> Inside(placed[k].rect, area)
    ensures NoFarther(dir, cur, placed[i].rect, placed[j].rect)
  {
    hide Distance, SquaredDistance, LiesIn, OnSide, ColumnsRight, RowsDown, Inside, DiagonalFits;
    ExactInside(cur, placed[i].rect, area);
    ExactInside(cur, placed[j].rect, area);
    InCoordinates(dir, cur, placed[i].rect);
    InCoordinates(dir, cur, placed[j].rect);
  }

  /** A pane on the side of the direction is one that the program considers. */
  lemma OnSideIsEligible(placed: seq<Placed>, focused: string, from: Rect, dir: Dir, j: nat)
    requires forall i, k :: 0 <= i < k < |placed| ==> placed[i].id != placed[k].id
    requires CurrentRect(placed, Some(focused)) == Some(from) && j < |placed|
    ensures Eligible(placed[j], focused, from, dir)
       <==> OnSide(dir, from, placed[j].rect)
  {
    InCoordinates(dir, from, placed[j].rect);
    if placed[j].id == focused { CurrentOf(placed, j); }
  }

  /** What is known of the panes of a sound state. */
  lemma PanesArePlaced(s: State, area: Rect, divide: Divider)
    requires Sound(s) && s.ActivePanes().Some? && s.focusedPane.Some?
    ensures var placed := LeafRects(s.ActivePanes().value, area, divide);
      && (forall i, k :: 0 <= i < k < |placed| ==> placed[i].id != placed[k].id)
      && (exists i :: 0 <= i < |placed| && placed[i].id == s.focusedPane.value)
      && CurrentRect(placed, s.focusedPane).Some?
  {
    var t := s.ActivePanes().value;
    var placed := LeafRects(t, area, divide);
    LeafRectsAreLeaves(t, area, divide);
    assert NoDuplicates(t.Leaves());
    var i :| 0 <= i < |t.Leaves()| && t.Leaves()[i] == s.focusedPane.value;
    hide LeafRects;
    CurrentOf(placed, i);
    assert placed[i].id == s.focusedPane.value;
  }

  /** Focus moves exactly when the centre of some pane is strictly on the side of the direction: left of,
      right of, above or below the centre of the focused one. Then it moves to such a pane, and nothing
      but the focus changes. */
  lemma FocusMovesIff(s: State, dir: Dir, area: Rect, divide: Divider)
    requires Sound(s) && s.ActivePanes().Some? && s.focusedPane.Some?
    ensures var placed := LeafRects(s.ActivePanes().value, area, divide);
      var from := CurrentRect(placed, s.focusedPane);
      var after := AfterFocusDir(s, dir, area, divide);
      && from.Some?
      && (after != s <==> exists j | 0 <= j < |placed| :: OnSide(dir, from.value, placed[j].rect))
      && (after != s ==> exists j | 0 <= j < |placed| ::
            OnSide(dir, from.value, placed[j].rect) && after == s.(focusedPane := Some(placed[j].id)))
  {
    PanesArePlaced(s, area, divide);
    hide LeafRects, IsNearest, OnSide, ColumnsRight, RowsDown, CurrentRect, Sound;
    var placed := LeafRects(s.ActivePanes().value, area, divide);
    var focused, from := s.focusedPane.value, CurrentRect(placed, s.focusedPane).value;
    forall j | 0 <= j < |placed|
      ensures Eligible(placed[j], focused, from, dir)
         <==> OnSide(dir, from, placed[j].rect)
    {
      OnSideIsEligible(placed, focused, from, dir, j);
    }
    var best := NearestExists(placed, focused, from, dir);
    if best.Some? {
      NearestIsPlaced(placed, focused, from, dir, best.value);
      FocusMovesTo(s, dir, area, divide, best.value);
    } else {
      FocusStays(s, dir, area, divide);
    }
  }

  /** What a focus move does when no pane is found. */
  lemma FocusStays(s: State, dir: Dir, area: Rect, divide: Divider)
    requires s.ActivePanes().Some? && s.focusedPane.Some?
    requires var placed := LeafRects(s.ActivePanes().value, area, divide);
      var from := CurrentRect(placed, s.focusedPane);
      from.Some? && IsNearest(placed, s.focusedPane.value, from.value, dir, None)
    ensures AfterFocusDir(s, dir, area, divide) == s
    ensures var placed := LeafRects(s.ActivePanes().value, area, divide);
      forall j :: 0 <= j < |placed| ==>
        !Eligible(placed[j], s.focusedPane.value, CurrentRect(placed, s.focusedPane).value, dir)
  {
    hide CurrentRect, LeafRects;
    var placed := LeafRects(s.ActivePanes().value, area, divide);
    var from := CurrentRect(placed, s.focusedPane).value;
    forall k: nat | IsNearest(placed, s.focusedPane.value, from, dir, Some(k)) ensures false {
      NearestIsUnique(placed, s.focusedPane.value, from, dir, Some(k), None);
    }
  }

  function Opposite(dir: Dir): Dir {
    match dir case Left => Right case Right => Left case Up => Down case Down => Up
  }

  lemma OppositeSides(dir: Dir, from: Rect, to: Rect)
    ensures OnSide(dir, from, to) <==> OnSide(Opposite(dir), to, from)
    ensures !OnSide(dir, from, from)
  {
  }

  lemma FocusElsewhere(s: State, id: string)
    requires Sound(s) && s.ActivePanes().Some? && s.ActivePanes().value.Contains(id) && s.focusedPane.Some?
    ensures Sound(s.(focusedPane := Some(id)))
  {
  }

  /** Of two panes, focus moves to the other one exactly when that one is on the side. */
  lemma MoveToOther(s: State, dir: Dir, area: Rect, divide: Divider, i: nat)
    requires Sound(s) && s.ActivePanes().Some? && |s.ActivePanes().value.Leaves()| == 2
    requires i < 2 && s.focusedPane == Some(s.ActivePanes().value.Leaves()[i])
    ensures var ids, placed := s.ActivePanes().value.Leaves(), LeafRects(s.ActivePanes().value, area, divide);
      && |placed| == 2
      && AfterFocusDir(s, dir, area, divide)
           == if OnSide(dir, placed[i].rect, placed[1 - i].rect) then s.(focusedPane := Some(ids[1 - i])) else s
  {
    var t := s.ActivePanes().value;
    var placed := LeafRects(t, area, divide);
    LeafRectsAreLeaves(t, area, divide);
    PanesArePlaced(s, area, divide);
    hide LeafRects, Sound, OnSide, CurrentRect, AfterFocusDir;
    FocusMovesIff(s, dir, area, divide);
    CurrentOf(placed, i);
    OppositeSides(dir, placed[i].rect, placed[i].rect);
  }

  /** So between two panes a move back undoes a move. */
  lemma MoveBack(s: State, dir: Dir, area: Rect, divide: Divider)
    requires Sound(s) && s.ActivePanes().Some? && s.focusedPane.Some? && |s.ActivePanes().value.Leaves()| == 2
    requires AfterFocusDir(s, dir, area, divide) != s
    ensures AfterFocusDir(AfterFocusDir(s, dir, area, divide), Opposite(dir), area, divide) == s
  {
    var ids, placed := s.ActivePanes().value.Leaves(), LeafRects(s.ActivePanes().value, area, divide);
    var i: nat :| i < 2 && ids[i] == s.focusedPane.value;
    FocusElsewhere(s, ids[1 - i]);
    hide LeafRects, Sound, OnSide, AfterFocusDir;
    MoveToOther(s, dir, area, divide, i);
    OppositeSides(dir, placed[i].rect, placed[1 - i].rect);
    MoveToOther(s.(focusedPane := Some(ids[1 - i])), Opposite(dir), area, divide, 1 - i);
  }

  lemma SmallGridIsSafe(s: State, dir: Dir, area: Rect, divide: Divider)
    requires Sound(s) && KeepsInside(divide) && DiagonalFits(area)
    ensures MovesToNearest(s, dir, area, divide)
  {
    if s.ActivePanes().Some? && s.focusedPane.Some? {
      var t, focused := s.ActivePanes().value, s.focusedPane.value;
      var placed := LeafRects(t, area, divide);
      PanesArePlaced(s, area, divide);
      var from := CurrentRect(placed, s.focusedPane).value;
      forall k | 0 <= k < |placed| ensures Inside(placed[k].rect, area) {
        PlacedInside(t, area, divide, k);
      }
      CurrentIsPlaced(placed, s.focusedPane);
      hide LeafRects, KeepsInside, IsNearest, Inside, DiagonalFits, AfterFocusDir, Eligible, NoFarther, Sound;
      hide OnSide, ColumnsRight, RowsDown, CurrentRect;
      var best := NearestExists(placed, focused, from, dir);
      forall j | 0 <= j < |placed| && OnSide(dir, from, placed[j].rect)
        ensures best.Some? && best.value < |placed| && NoFarther(dir, from, placed[best.value].rect, placed[j].rect)
      {
        OnSideIsEligible(placed, focused, from, dir, j);
        NoneMeansNone(placed, focused, from, dir, best, j);
        NearestIsPlaced(placed, focused, from, dir, best.value);
        ExactMeansNearest(placed, focused, from, dir, best.value, j, area);
      }
      if best.Some? {
        NearestIsPlaced(placed, focused, from, dir, best.value);
        FocusMovesTo(s, dir, area, divide, best.value);
        CurrentOf(placed, best.value);
      }
    }
  }

  lemma NoneMeansNone(placed: seq<Placed>, focused: string, cur: Rect, dir: Dir, best: Option<nat>, j: nat)
    requires IsNearest(placed, focused, cur, dir, best)
    requires j < |placed| && Eligible(placed[j], focused, cur, dir)
    ensures best.Some?
  {
  }

  // ----- a larger grid -----

  const THREE_PANES := Split(Cols, 10, Leaf("a"), Split(Cols, 90, Leaf("b"), Leaf("c")))

  /** Three agents without a workspace are open side by side, and the first has focus. */
  const THREE_OPEN :=
    State(0, Panes, map[OTHER_WS_KEY := THREE_PANES], Some(OTHER_WS_KEY), Some("a"), Cols, false)

  lemma ThreeOpenIsGood()
    ensures Good(Data([], []), THREE_OPEN) && Sound(THREE_OPEN) && THREE_OPEN.ActivePanes() == Some(THREE_PANES)
  {
    assert THREE_PANES.Leaves() == ["a"] + (["b"] + ["c"]) == ["a", "b", "c"];
    assert "a"[0] != "b"[0] && "a"[0] != "c"[0] && "b"[0] != "c"[0];
  }

  lemma ThreeRects(area: Rect, divide: Divider)
    ensures var (first, rest) := divide(Cols, 10, area);
      var (second, third) := divide(Cols, 90, rest);
      LeafRects(THREE_PANES, area, divide) == [Placed("a", first), Placed("b", second), Placed("c", third)]
  {
    var rest := divide(Cols, 10, area).1;
    var inner := Split(Cols, 90, Leaf("b"), Leaf("c"));
    assert LeafRects(inner, rest, divide)
        == [Placed("b", divide(Cols, 90, rest).0)] + [Placed("c", divide(Cols, 90, rest).1)];
    assert LeafRects(THREE_PANES, area, divide)
        == [Placed("a", divide(Cols, 10, area).0)] + LeafRects(inner, rest, divide);
  }

  /** With "a" focused, focus moves past the nearer "b" when the distance to "c" wraps below it. */
  lemma FarWins(dir: Dir, area: Rect, divide: Divider, here: Rect, near: Rect, far: Rect)
    requires LeafRects(THREE_PANES, area, divide) == [Placed("a", here), Placed("b", near), Placed("c", far)]
    requires LiesIn(dir, here, near) && LiesIn(dir, here, far)
    requires Distance(here, far) < Distance(here, near) && SquaredDistance(here, near) < SquaredDistance(here, far)
    ensures AfterFocusDir(THREE_OPEN, dir, area, divide).focusedPane == Some("c")
    ensures !MovesToNearest(THREE_OPEN, dir, area, divide)
  {
    hide Distance, SquaredDistance, LiesIn, OnSide, ColumnsRight, RowsDown, LeafRects, AfterFocusDir;
    InCoordinates(dir, here, near);
    InCoordinates(dir, here, far);
    ThreeOpenIsGood();
    var placed := [Placed("a", here), Placed("b", near), Placed("c", far)];
    assert "a"[0] != "b"[0] && "a"[0] != "c"[0] && "b"[0] != "c"[0];
    CurrentOf(placed, 0);
    CurrentOf(placed, 2);
    assert IsNearest(placed, "a", here, dir, Some(2));
    FocusMovesTo(THREE_OPEN, dir, area, divide, 2);
    assert Eligible(placed[1], "a", here, dir);
  }

  /** One child in the corner, and two more at given offsets from it. */
  function CornerParts(nx: nat, ny: nat, fx: nat, fy: nat, ratio: int, r: Rect): (Rect, Rect) {
    if ratio == 10 then (Rect(r.x, r.y, 0, 0), r)
    else if nx <= r.width && ny <= r.height && fx <= r.width && fy <= r.height
    then (Rect(r.x + nx, r.y + ny, 0, 0), Rect(r.x + fx, r.y + fy, 0, 0))
    else (r, r)
  }

  function Corner(nx: nat, ny: nat, fx: nat, fy: nat): Divider {
    (orient, ratio, r) => CornerParts(nx, ny, fx, fy, ratio, r)
  }

  lemma CornerKeepsInside(nx: nat, ny: nat, fx: nat, fy: nat)
    ensures KeepsInside(Corner(nx, ny, fx, fy))
  {
    forall orient, ratio: int, r | 10 <= ratio <= 90
      ensures DividesInside(Corner(nx, ny, fx, fy), orient, ratio, r)
    {
    }
  }

  /** Some cell of a larger grid is so far from the corner that its squared distance wraps once. */
  lemma WrappingOffset(area: Rect) returns (fx: nat, fy: nat)
    requires !DiagonalFits(area)
    ensures fx <= area.width && fy <= area.height && (fx > 0 || fy > 0)
    ensures 0x8000_0000 <= fx * fx + fy * fy < 0x1_0000_0000
  {
    if area.width >= 46341 {
      fx, fy := 46341, 0;
    } else if area.height >= 46341 {
      fx, fy := 0, 46341;
    } else {
      fx, fy := area.width, area.height;
      SquareGrows(fx, 46340);
      SquareGrows(fy, 46340);
    }
  }

  lemma OffsetDistances(r: Rect, fx: nat, fy: nat)
    requires r.width == 0 && r.height == 0
    ensures SquaredDistance(r, Rect(r.x + fx, r.y + fy, 0, 0)) == fx * fx + fy * fy
  {
  }

  lemma CornerRects(area: Rect, nx: nat, ny: nat, fx: nat, fy: nat)
    requires nx <= area.width && ny <= area.height && fx <= area.width && fy <= area.height
    ensures LeafRects(THREE_PANES, area, Corner(nx, ny, fx, fy)) ==
      [Placed("a", Rect(area.x, area.y, 0, 0)), Placed("b", Rect(area.x + nx, area.y + ny, 0, 0)),
       Placed("c", Rect(area.x + fx, area.y + fy, 0, 0))]
  {
    var divide := Corner(nx, ny, fx, fy);
    assert divide(Cols, 10, area) == CornerParts(nx, ny, fx, fy, 10, area);
    assert divide(Cols, 90, area) == CornerParts(nx, ny, fx, fy, 90, area);
    hide LeafRects, Corner;
    ThreeRects(area, divide);
  }

  /** One cell away against an offset that wraps. */
  lemma WrappedIsSmaller(r: Rect, nx: nat, ny: nat, fx: nat, fy: nat)
    requires r.width == 0 && r.height == 0 && nx * nx + ny * ny == 1
    requires 0x8000_0000 <= fx * fx + fy * fy < 0x1_0000_0000
    ensures var near, far := Rect(r.x + nx, r.y + ny, 0, 0), Rect(r.x + fx, r.y + fy, 0, 0);
      Distance(r, far) < Distance(r, near) && SquaredDistance(r, near) < SquaredDistance(r, far)
  {
    hide SquaredDistance;
    OffsetDistances(r, nx, ny);
    OffsetDistances(r, fx, fy);
  }

  lemma LargeGridIsNot(area: Rect) returns (dir: Dir, divide: Divider)
    requires !DiagonalFits(area)
    ensures KeepsInside(divide) && !MovesToNearest(THREE_OPEN, dir, area, divide)
  {
    hide KeepsInside, MovesToNearest, DiagonalFits, LeafRects, SquaredDistance, Distance, Corner;
    var fx, fy := WrappingOffset(area);
    var nx, ny := if fx > 0 then 1 else 0, if fx > 0 then 0 else 1;
    dir := if fx > 0 then Right else Down;
    divide := Corner(nx, ny, fx, fy);
    CornerKeepsInside(nx, ny, fx, fy);
    CornerRects(area, nx, ny, fx, fy);
    var here := Rect(area.x, area.y, 0, 0);
    WrappedIsSmaller(here, nx, ny, fx, fy);
    FarWins(dir, area, divide, here, Rect(area.x + nx, area.y + ny, 0, 0), Rect(area.x + fx, area.y + fy, 0, 0));
  }

  /** Focus moves go to the nearest pane in every layout, whichever way rectangles are divided,
      exactly on the grids whose squared diagonal fits an `i32`. */
  lemma FocusIsNearestIff(area: Rect)
    ensures (forall s, dir, divide | Sound(s) && KeepsInside(divide) :: MovesToNearest(s, dir, area, divide))
       <==> DiagonalFits(area)
  {
    hide Sound, KeepsInside, MovesToNearest, DiagonalFits;
    if DiagonalFits(area) {
      forall s, dir, divide | Sound(s) && KeepsInside(divide) ensures MovesToNearest(s, dir, area, divide) {
        SmallGridIsSafe(s, dir, area, divide);
      }
    } else {
      var dir, divide := LargeGridIsNot(area);
      ThreeOpenIsGood();
    }
  }

  // ----- a layout on one very wide line -----

  /** The part of a length that falls to the first child. */
  function FirstPart(length: nat, ratio: int): (part: nat)
    ensures part <= length
  {
    assert 0 <= length * Clamp(ratio) <= length * 100;
    length * Clamp(ratio) / 100
  }

  function InProportion(orient: Orient, ratio: int, r: Rect): (Rect, Rect) {
    match orient
    case Cols =>
      var w := FirstPart(r.width, ratio);
      (Rect(r.x, r.y, w, r.height), Rect(r.x + w, r.y, r.width - w, r.height))
    case Rows =>
      var h := FirstPart(r.height, ratio);
      (Rect(r.x, r.y, r.width, h), Rect(r.x, r.y + h, r.width, r.height - h))
  }

  lemma ProportionKeepsInside()
    ensures KeepsInside(InProportion)
  {
    hide FirstPart;
    forall orient, ratio: int, r | 10 <= ratio <= 90 ensures DividesInside(InProportion, orient, ratio, r) {
    }
  }

  /** Two agents without a workspace share the grid in equal parts. */
  function TwoOpen(orient: Orient, focused: string): State {
    State(0, Panes, map[OTHER_WS_KEY := Split(orient, 50, Leaf("a"), Leaf("b"))], Some(OTHER_WS_KEY), Some(focused),
          Cols, false)
  }

  lemma TwoRects(orient: Orient, area: Rect)
    ensures LeafRects(Split(orient, 50, Leaf("a"), Leaf("b")), area, InProportion) ==
      [Placed("a", InProportion(orient, 50, area).0), Placed("b", InProportion(orient, 50, area).1)]
  {
  }

  lemma HalvesApart(orient: Orient, area: Rect, dir: Dir)
    ensures var (first, second) := InProportion(orient, 50, area);
      && (OnSide(dir, first, second) <==>
            (orient == Cols && dir == Right && area.width >= 2) || (orient == Rows && dir == Down && area.height >= 2))
      && (OnSide(dir, second, first) <==>
            (orient == Cols && dir == Left && area.width >= 2) || (orient == Rows && dir == Up && area.height >= 2))
  {
    assert FirstPart(area.width, 50) == area.width / 2 && FirstPart(area.height, 50) == area.height / 2;
  }

  lemma TwoOpenIsSound(orient: Orient, i: nat)
    requires i < 2
    ensures Sound(TwoOpen(orient, ["a", "b"][i]))
  {
    var t := Split(orient, 50, Leaf("a"), Leaf("b"));
    assert t.Leaves() == ["a", "b"] && "a"[0] != "b"[0];
    assert SoundTree(t) && t.Contains(["a", "b"][i]);
  }

  /** Where the focus goes between two equal halves, on every grid and in every direction: across the
      divide, if the grid is at least two cells long that way, and nowhere else. */
  lemma HalvesMove(orient: Orient, area: Rect, dir: Dir)
    ensures AfterFocusDir(TwoOpen(orient, "a"), dir, area, InProportion) ==
      TwoOpen(orient, if (orient == Cols && dir == Right && area.width >= 2) ||
                         (orient == Rows && dir == Down && area.height >= 2) then "b" else "a")
    ensures AfterFocusDir(TwoOpen(orient, "b"), dir, area, InProportion) ==
      TwoOpen(orient, if (orient == Cols && dir == Left && area.width >= 2) ||
                         (orient == Rows && dir == Up && area.height >= 2) then "a" else "b")
  {
    assert Split(orient, 50, Leaf("a"), Leaf("b")).Leaves() == ["a", "b"];
    TwoRects(orient, area);
    HalvesApart(orient, area, dir);
    TwoOpenIsSound(orient, 0);
    TwoOpenIsSound(orient, 1);
    hide InProportion, LeafRects, AfterFocusDir, Sound, OnSide;
    MoveToOther(TwoOpen(orient, "a"), dir, area, InProportion, 0);
    MoveToOther(TwoOpen(orient, "b"), dir, area, InProportion, 1);
  }

  lemma WideDistances()
    ensures SquaredDistance(Rect(0, 1, 6553, 48), Rect(6553, 1, 53083, 48)) == 889_113_124
    ensures SquaredDistance(Rect(0, 1, 6553, 48), Rect(59636, 1, 5899, 48)) == 3_517_557_481
    ensures ToI32(889_113_124) == 889_113_124 && ToI32(3_517_557_481) == -777_409_815
  {
    var here, near, far := Rect(0, 1, 6553, 48), Rect(6553, 1, 53083, 48), Rect(59636, 1, 5899, 48);
    assert here.CenterX() == 3276 && near.CenterX() == 33094 && far.CenterX() == 62585;
    assert here.CenterY() == near.CenterY() == far.CenterY() == 25;
    assert 29818 * 29818 == 889_113_124 && 59309 * 59309 == 3_517_557_481;
  }

  /** 65535 columns by 48 rows, under a one-row header. */
  const WIDE_GRID := Rect(0, 1, 65535, 48)

  /** Three panes side by side on a very wide grid, the left one focused: moving right skips the
      middle one, although the right one is almost twice as far. */
  lemma WideGridSkips()
    ensures LeafRects(THREE_PANES, WIDE_GRID, InProportion) ==
      [Placed("a", Rect(0, 1, 6553, 48)), Placed("b", Rect(6553, 1, 53083, 48)), Placed("c", Rect(59636, 1, 5899, 48))]
    ensures AfterFocusDir(THREE_OPEN, Right, WIDE_GRID, InProportion).focusedPane == Some("c")
    ensures !MovesToNearest(THREE_OPEN, Right, WIDE_GRID, InProportion)
  {
    var here, near, far := Rect(0, 1, 6553, 48), Rect(6553, 1, 53083, 48), Rect(59636, 1, 5899, 48);
    assert FirstPart(65535, 10) == 6553 && FirstPart(58982, 90) == 53083;
    assert InProportion(Cols, 10, WIDE_GRID) == (here, Rect(6553, 1, 58982, 48));
    assert InProportion(Cols, 90, Rect(6553, 1, 58982, 48)) == (near, far);
    ThreeRects(WIDE_GRID, InProportion);
    WideDistances();
    hide ToI32, SquaredDistance;
    assert Distance(here, near) == 889_113_124 && Distance(here, far) == -777_409_815;
    hide Distance, LeafRects, AfterFocusDir, MovesToNearest;
    FarWins(Right, WIDE_GRID, InProportion, here, near, far);
  }
}
