/** Where panes lie on the grid, and the pane a focus move picks (crates/memmux/src/app.rs,
    `leaf_rects` and `focus_dir`). */
module PaneGeometry {
  import opened Prelude
  import opened PaneLayout

  datatype Rect = Rect(x: nat, y: nat, width: nat, height: nat) {
    function CenterX(): int { x + width / 2 }
    function CenterY(): int { y + height / 2 }
    predicate Covers(col: nat, row: nat) { x <= col < x + width && y <= row < y + height }
  }

  /** How the terminal library divides a rectangle between two children; left abstract. */
  type Divider = (Orient, int, Rect) -> (Rect, Rect)

  datatype Placed = Placed(id: string, rect: Rect)

  function LeafRects(t: Layout, area: Rect, divide: Divider): seq<Placed> {
    match t
    case Leaf(id) => [Placed(id, area)]
    case Split(orient, ratio, a, b) =>
      var parts := divide(orient, Clamp(ratio), area);
      LeafRects(a, parts.0, divide) + LeafRects(b, parts.1, divide)
  }

  /** One rectangle per leaf, in order. */
  lemma {:induction false} LeafRectsAreLeaves(t: Layout, area: Rect, divide: Divider)
    ensures var placed := LeafRects(t, area, divide);
      |placed| == |t.Leaves()| && forall i :: 0 <= i < |placed| ==> placed[i].id == t.Leaves()[i]
  {
    if t.Split? {
      var parts := divide(t.orient, Clamp(t.ratio), area);
      LeafRectsAreLeaves(t.a, parts.0, divide);
      LeafRectsAreLeaves(t.b, parts.1, divide);
    }
  }

  datatype Dir = Left | Right | Up | Down

  predicate LiesIn(dir: Dir, from: Rect, to: Rect) {
    match dir
    case Left => to.CenterX() < from.CenterX()
    case Right => to.CenterX() > from.CenterX()
    case Up => to.CenterY() < from.CenterY()
    case Down => to.CenterY() > from.CenterY()
  }

  function SquaredDistance(a: Rect, b: Rect): int {
    var dx, dy := b.CenterX() - a.CenterX(), b.CenterY() - a.CenterY();
    dx * dx + dy * dy
  }

  /** A number kept in an `i32` that wraps. */
  function ToI32(x: int): int { (x + 0x8000_0000) % 0x1_0000_0000 - 0x8000_0000 }

  /** The distance the program compares: squares and sum are `i32`. */
  function Distance(a: Rect, b: Rect): int { ToI32(SquaredDistance(a, b)) }

  predicate Eligible(p: Placed, focused: string, cur: Rect, dir: Dir) {
    p.id != focused && LiesIn(dir, cur, p.rect)
  }

  /** The first of the nearest panes in a direction, by index. */
  ghost predicate IsNearest(placed: seq<Placed>, focused: string, cur: Rect, dir: Dir, best: Option<nat>) {
    match best
    case None => forall j :: 0 <= j < |placed| ==> !Eligible(placed[j], focused, cur, dir)
    case Some(i) =>
      && i < |placed| && Eligible(placed[i], focused, cur, dir)
      && (forall j :: 0 <= j < |placed| && Eligible(placed[j], focused, cur, dir) ==>
            Distance(cur, placed[i].rect) <= Distance(cur, placed[j].rect))
      && (forall j :: 0 <= j < i && Eligible(placed[j], focused, cur, dir) ==>
            Distance(cur, placed[i].rect) < Distance(cur, placed[j].rect))
  }

  /** Only one pane is the first of the nearest. */
  lemma NearestIsUnique(placed: seq<Placed>, focused: string, cur: Rect, dir: Dir, a: Option<nat>, b: Option<nat>)
    requires IsNearest(placed, focused, cur, dir, a) && IsNearest(placed, focused, cur, dir, b)
    ensures a == b
  {
  }

  /** The leader after one more pane: the newcomer when it is strictly nearer. */
  lemma NextNearest(placed: seq<Placed>, p: Placed, focused: string, cur: Rect, dir: Dir, best: Option<nat>)
    requires IsNearest(placed, focused, cur, dir, best)
    ensures var wins := Eligible(p, focused, cur, dir)
              && (best.None? || Distance(cur, p.rect) < Distance(cur, placed[best.value].rect));
      IsNearest(placed + [p], focused, cur, dir, if wins then Some(|placed|) else best)
  {
    hide Distance, LiesIn;
    var more := placed + [p];
    assert forall j :: 0 <= j < |placed| ==> more[j] == placed[j];
    assert more[|placed|] == p;
  }

  method FindNearest(placed: seq<Placed>, focused: string, cur: Rect, dir: Dir) returns (best: Option<nat>)
    ensures IsNearest(placed, focused, cur, dir, best)
  {
    best := None;
    for i := 0 to |placed|
      invariant IsNearest(placed[..i], focused, cur, dir, best)
    {
      hide Distance, LiesIn;
      var p := placed[i];
      NextNearest(placed[..i], p, focused, cur, dir, best);
      assert placed[..i + 1] == placed[..i] + [p];
      if p.id != focused && LiesIn(dir, cur, p.rect) {
        if best.None? || Distance(cur, p.rect) < Distance(cur, placed[best.value].rect) {
          best := Some(i);
        }
      }
    }
    assert placed[..|placed|] == placed;
  }
}
