/** Panes tile the grid, so a click picks one pane (crates/memmux/src/app.rs, `leaf_rects` and
    `focus_pane_at`). */
module PaneTiling {
  import opened PaneFocus
  import opened PaneGeometry
  import opened PaneLayout
  import opened PaneModel
  import opened Prelude
  import PaneChanges

  /** The cell is so many columns and rows from the corner of the rectangle. */
  predicate HasCell(r: Rect, col: nat, row: nat) {
    exists dx, dy | 0 <= dx < r.width && 0 <= dy < r.height :: CellAt(r, dx, dy, col, row)
  }

  predicate CellAt(r: Rect, dx: nat, dy: nat, col: nat, row: nat) {
    col == r.x + dx && row == r.y + dy
  }

  lemma CoversIff(r: Rect, col: nat, row: nat)
    ensures r.Covers(col, row) <==> HasCell(r, col, row)
  {
    if r.Covers(col, row) { assert CellAt(r, col - r.x, row - r.y, col, row); }
  }

  /** Each cell of a divided rectangle goes to one of the two parts, and no other cell does. */
  ghost predicate CellsDivided(divide: Divider, orient: Orient, ratio: int, r: Rect) {
    forall col: nat, row: nat ::
      var a, b := HasCell(divide(orient, ratio, r).0, col, row), HasCell(divide(orient, ratio, r).1, col, row);
      (HasCell(r, col, row) <==> a || b) && !(a && b)
  }

  ghost predicate KeepsCells(divide: Divider) {
    forall orient, ratio, r | 10 <= ratio <= 90 :: CellsDivided(divide, orient, ratio, r)
  }

  /** The indices of the panes that have the cell. */
  ghost function Having(placed: seq<Placed>, col: nat, row: nat): set<nat> {
    set i: nat | i < |placed| && HasCell(placed[i].rect, col, row)
  }

  /** However the tree is split, each cell of the grid is in exactly one pane. */
  lemma {:induction false} OnePane(t: Layout, area: Rect, divide: Divider, col: nat, row: nat)
    requires KeepsCells(divide)
    ensures var placed := LeafRects(t, area, divide);
      if HasCell(area, col, row) then exists i: nat :: i < |placed| && Having(placed, col, row) == {i}
      else Having(placed, col, row) == {}
  {
    match t
    case Leaf(id) =>
      OneLeaf(id, area, col, row);
    case Split(orient, ratio, a, b) =>
      var (p, q) := divide(orient, Clamp(ratio), area);
      var inA, inB := LeafRects(a, p, divide), LeafRects(b, q, divide);
      assert LeafRects(t, area, divide) == inA + inB;
      assert CellsDivided(divide, orient, Clamp(ratio), area);
      assert (HasCell(area, col, row) <==> HasCell(p, col, row) || HasCell(q, col, row)) &&
        !(HasCell(p, col, row) && HasCell(q, col, row));
      hide HasCell, Having, CellsDivided, KeepsCells, LeafRects;
      OnePane(a, p, divide, col, row);
      OnePane(b, q, divide, col, row);
      Both(inA, inB, col, row);
      if HasCell(p, col, row) {
        var i: nat :| i < |inA| && Having(inA, col, row) == {i};
        assert Having(inA + inB, col, row) == {i};
      } else if HasCell(q, col, row) {
        var i: nat :| i < |inB| && Having(inB, col, row) == {i};
        assert Having(inA + inB, col, row) == {|inA| + i};
      }
  }

  lemma OneLeaf(id: string, area: Rect, col: nat, row: nat)
    ensures Having([Placed(id, area)], col, row) == if HasCell(area, col, row) then {0} else {}
  {
    hide HasCell;
  }

  lemma Both(a: seq<Placed>, b: seq<Placed>, col: nat, row: nat)
    ensures Having(a + b, col, row) == Having(a, col, row) + set i | i in Having(b, col, row) :: |a| + i
  {
    hide HasCell;
    forall k: nat ensures k in Having(a + b, col, row) <==>
      k in Having(a, col, row) || k in set i | i in Having(b, col, row) :: |a| + i
    {
      if k >= |a| && k < |a + b| {
        assert (a + b)[k] == b[k - |a|];
        assert k == |a| + (k - |a|);
        assert (k - |a|) as nat in Having(b, col, row) <==> HasCell(b[k - |a|].rect, col, row);
      }
    }
  }

  lemma {:induction false} FirstIsOnly(placed: seq<Placed>, col: nat, row: nat, i: nat)
    requires i < |placed| && HasCell(placed[i].rect, col, row)
    requires forall j :: 0 <= j < i ==> !HasCell(placed[j].rect, col, row)
    ensures FirstCovering(placed, col, row) == Some(placed[i].id)
  {
    hide HasCell;
    CoversIff(placed[0].rect, col, row);
    if i > 0 { FirstIsOnly(placed[1..], col, row, i - 1); }
  }

  lemma {:induction false} NoneCovering(placed: seq<Placed>, col: nat, row: nat)
    requires forall j :: 0 <= j < |placed| ==> !HasCell(placed[j].rect, col, row)
    ensures FirstCovering(placed, col, row) == None
  {
    hide HasCell;
    if placed != [] {
      CoversIff(placed[0].rect, col, row);
      NoneCovering(placed[1..], col, row);
    }
  }

  /** A click on a cell of the grid focuses the one pane that has the cell, and a click anywhere else
      changes nothing. */
  lemma ClickPicksThePane(s: State, col: nat, row: nat, area: Rect, divide: Divider) returns (i: nat)
    requires KeepsCells(divide) && s.ActivePanes().Some?
    ensures var placed := LeafRects(s.ActivePanes().value, area, divide);
      var after := AfterFocusAt(s, col, row, area, divide);
      && (HasCell(area, col, row) ==> i < |placed| && Having(placed, col, row) == {i}
                                      && after == s.(focusedPane := Some(placed[i].id), focus := Panes))
      && (!HasCell(area, col, row) ==> after == s)
  {
    hide HasCell, KeepsCells, LeafRects, FirstCovering;
    var placed := LeafRects(s.ActivePanes().value, area, divide);
    OnePane(s.ActivePanes().value, area, divide, col, row);
    i := 0;
    if HasCell(area, col, row) {
      i :| i < |placed| && Having(placed, col, row) == {i};
      forall j | 0 <= j < |placed| && j != i ensures !HasCell(placed[j].rect, col, row) {
        assert j !in Having(placed, col, row);
      }
      assert i in Having(placed, col, row);
      FirstIsOnly(placed, col, row, i);
    } else {
      forall j | 0 <= j < |placed| ensures !HasCell(placed[j].rect, col, row) {
        assert j !in Having(placed, col, row);
      }
      NoneCovering(placed, col, row);
    }
  }

  /** Dividing in proportion tiles. */
  lemma ProportionKeepsCells()
    ensures KeepsCells(InProportion)
  {
    hide FirstPart, HasCell;
    forall orient, ratio: int, r | 10 <= ratio <= 90 ensures CellsDivided(InProportion, orient, ratio, r) {
      forall col: nat, row: nat
        ensures var (p, q) := InProportion(orient, ratio, r);
          (HasCell(r, col, row) <==> HasCell(p, col, row) || HasCell(q, col, row)) &&
          !(HasCell(p, col, row) && HasCell(q, col, row))
      {
        CoversIff(r, col, row);
        CoversIff(InProportion(orient, ratio, r).0, col, row);
        CoversIff(InProportion(orient, ratio, r).1, col, row);
      }
    }
  }

  /** And it keeps the corner. */
  lemma ProportionKeepsCorner()
    ensures PaneChanges.KeepsCorner(InProportion)
  {
    hide FirstPart;
    forall orient, ratio: int, r | 10 <= ratio <= 90
      ensures PaneChanges.SameCorner(InProportion(orient, ratio, r).0, r)
    {
    }
  }
}
