/** The binary tiling tree of open panes (crates/memmux/src/app.rs, `PaneLayout`). The source owns
    its trees, so an in-place change of one is modelled as the tree it leaves behind. */
module PaneLayout {
  import opened Prelude

  datatype Orient = Cols | Rows

  datatype Layout =
    | Leaf(id: string)
    | Split(orient: Orient, ratio: int, a: Layout, b: Layout)
  {
    function Leaves(): (ids: seq<string>)
      ensures ids != []
    {
      match this
      case Leaf(id) => [id]
      case Split(_, _, a, b) => a.Leaves() + b.Leaves()
    }

    predicate Contains(id: string) { id in Leaves() }

    /** Every split ratio is within 10 to 90 percent. */
    predicate RatiosOk() {
      match this
      case Leaf(_) => true
      case Split(_, ratio, a, b) => 10 <= ratio <= 90 && a.RatiosOk() && b.RatiosOk()
    }
  }

  /** A tree and whether it was changed. */
  datatype Change = Change(layout: Layout, changed: bool)

  function SplitLeaf(t: Layout, target: string, newId: string, orient: Orient): Change {
    match t
    case Leaf(id) =>
      if id == target then Change(Split(orient, 50, Leaf(id), Leaf(newId)), true) else Change(t, false)
    case Split(o, ratio, a, b) =>
      var inA := SplitLeaf(a, target, newId, orient);
      if inA.changed then Change(Split(o, ratio, inA.layout, b), true)
      else
        var inB := SplitLeaf(b, target, newId, orient);
        Change(Split(o, ratio, a, inB.layout), inB.changed)
  }

  function Without(t: Layout, id: string): Option<Layout> {
    match t
    case Leaf(l) => if l == id then None else Some(t)
    case Split(orient, ratio, a, b) =>
      match (Without(a, id), Without(b, id))
      case (Some(a'), Some(b')) => Some(Split(orient, ratio, a', b'))
      case (Some(only), None) => Some(only)
      case (None, Some(only)) => Some(only)
      case (None, None) => None
  }

  function Clamp(x: int): int { Max(10, Min(90, x)) }

  function Resize(t: Layout, focused: string, axisCols: bool, delta: int): Change {
    match t
    case Leaf(_) => Change(t, false)
    case Split(orient, ratio, a, b) =>
      var inA := a.Contains(focused);
      if !inA && !b.Contains(focused) then Change(t, false)
      else
        var child := Resize(if inA then a else b, focused, axisCols, delta);
        if child.changed then
          Change(if inA then Split(orient, ratio, child.layout, b) else Split(orient, ratio, a, child.layout), true)
        else if (orient == Cols) == axisCols then
          Change(Split(orient, Clamp(ratio + delta), a, b), true)
        else Change(t, false)
  }

  // ----- splitting and removing, seen on the leaves -----

  function InsertAfterFirst(s: seq<string>, x: string, y: string): seq<string> {
    if s == [] then []
    else if s[0] == x then [x, y] + s[1..]
    else [s[0]] + InsertAfterFirst(s[1..], x, y)
  }

  function Drop(s: seq<string>, x: string): seq<string> {
    if s == [] then [] else (if s[0] == x then [] else [s[0]]) + Drop(s[1..], x)
  }

  lemma InsertUnfold(c: string, s: seq<string>, x: string, y: string)
    ensures InsertAfterFirst([c] + s, x, y) == if c == x then [x, y] + s else [c] + InsertAfterFirst(s, x, y)
  {
    assert ([c] + s)[1..] == s;
  }

  lemma Associative(a: seq<string>, b: seq<string>, c: seq<string>)
    ensures a + b + c == a + (b + c)
  {
  }

  lemma {:induction false} InsertInConcat(s: seq<string>, t: seq<string>, x: string, y: string)
    ensures InsertAfterFirst(s + t, x, y) ==
      if x in s then InsertAfterFirst(s, x, y) + t else s + InsertAfterFirst(t, x, y)
  {
    if s == [] {
      assert s + t == t;
    } else {
      hide InsertAfterFirst;
      var c, rest := s[0], s[1..];
      assert s == [c] + rest;
      Associative([c], rest, t);
      InsertInConcat(rest, t, x, y);
      InsertUnfold(c, rest, x, y);
      InsertUnfold(c, rest + t, x, y);
      if c == x {
        Associative([x, y], rest, t);
      } else if x in rest {
        Associative([c], InsertAfterFirst(rest, x, y), t);
      } else {
        Associative([c], rest, InsertAfterFirst(t, x, y));
      }
    }
  }

  lemma {:induction false} DropInConcat(s: seq<string>, t: seq<string>, x: string)
    ensures Drop(s + t, x) == Drop(s, x) + Drop(t, x)
  {
    if s == [] {
      assert s + t == t;
    } else {
      assert (s + t)[1..] == s[1..] + t;
      DropInConcat(s[1..], t, x);
    }
  }

  /** The split succeeds exactly when the target is open, and puts the new leaf right after its
      first occurrence. */
  lemma {:induction false} SplitLeaves(t: Layout, target: string, newId: string, orient: Orient)
    ensures var c := SplitLeaf(t, target, newId, orient);
      && c.changed == t.Contains(target)
      && c.layout.Leaves() == InsertAfterFirst(t.Leaves(), target, newId)
      && (!c.changed ==> c.layout == t)
      && (t.RatiosOk() ==> c.layout.RatiosOk())
  {
    if t.Split? {
      SplitLeaves(t.a, target, newId, orient);
      SplitLeaves(t.b, target, newId, orient);
      InsertInConcat(t.a.Leaves(), t.b.Leaves(), target, newId);
    }
  }

  /** Removing filters the leaves, and leaves no tree only when nothing else was in it. */
  lemma {:induction false} WithoutLeaves(t: Layout, id: string)
    ensures Without(t, id).None? <==> Drop(t.Leaves(), id) == []
    ensures Without(t, id).Some? ==> Without(t, id).value.Leaves() == Drop(t.Leaves(), id)
    ensures t.RatiosOk() && Without(t, id).Some? ==> Without(t, id).value.RatiosOk()
  {
    if t.Split? {
      WithoutLeaves(t.a, id);
      WithoutLeaves(t.b, id);
      DropInConcat(t.a.Leaves(), t.b.Leaves(), id);
    }
  }

  lemma {:induction false} WithoutAbsent(t: Layout, id: string)
    requires !t.Contains(id)
    ensures Without(t, id) == Some(t)
  {
    if t.Split? {
      WithoutAbsent(t.a, id);
      WithoutAbsent(t.b, id);
    }
  }

  /** Splitting at an open leaf and removing the new one gives back the identical tree. */
  lemma {:induction false} SplitThenWithout(t: Layout, target: string, newId: string, orient: Orient)
    requires t.Contains(target) && !t.Contains(newId)
    ensures Without(SplitLeaf(t, target, newId, orient).layout, newId) == Some(t)
  {
    if t.Split? {
      SplitLeaves(t.a, target, newId, orient);
      if t.a.Contains(target) {
        SplitThenWithout(t.a, target, newId, orient);
        WithoutAbsent(t.b, newId);
      } else {
        WithoutAbsent(t.a, newId);
        SplitThenWithout(t.b, target, newId, orient);
      }
    }
  }

  // ----- resizing, seen on the path to the focused leaf -----

  /** The turns from the root to the first leaf `id`: true for child `a`. */
  function PathTo(t: Layout, id: string): seq<bool>
    requires t.Contains(id)
  {
    match t
    case Leaf(_) => []
    case Split(_, _, a, b) => if a.Contains(id) then [true] + PathTo(a, id) else [false] + PathTo(b, id)
  }

  predicate OnTree(t: Layout, path: seq<bool>) {
    path == [] || (t.Split? && OnTree(if path[0] then t.a else t.b, path[1..]))
  }

  function NodeAt(t: Layout, path: seq<bool>): Layout
    requires OnTree(t, path)
  {
    if path == [] then t else NodeAt(if path[0] then t.a else t.b, path[1..])
  }

  /** The tree with the ratio of one split changed. */
  function WithRatio(t: Layout, path: seq<bool>, ratio: int): Layout
    requires OnTree(t, path) && NodeAt(t, path).Split?
  {
    if path == [] then t.(ratio := ratio)
    else if path[0] then t.(a := WithRatio(t.a, path[1..], ratio))
    else t.(b := WithRatio(t.b, path[1..], ratio))
  }

  /** The node `depth` turns down the path is a split along the axis. */
  predicate Governs(t: Layout, path: seq<bool>, depth: nat, axisCols: bool) {
    depth < |path| && OnTree(t, path[..depth]) &&
    var node := NodeAt(t, path[..depth]);
    node.Split? && (node.orient == Cols) == axisCols
  }

  lemma GovernsBelow(t: Layout, path: seq<bool>, depth: nat, axisCols: bool)
    requires t.Split? && path != [] && depth >= 1
    ensures Governs(t, path, depth, axisCols) <==> Governs(if path[0] then t.a else t.b, path[1..], depth - 1, axisCols)
  {
    if depth < |path| {
      var above := path[..depth];
      assert above != [] && above[0] == path[0] && above[1..] == path[1..][..depth - 1];
      var child := if path[0] then t.a else t.b;
      assert OnTree(t, above) == OnTree(child, above[1..]);
      if OnTree(t, above) { assert NodeAt(t, above) == NodeAt(child, above[1..]); }
    }
  }

  /** A resize reaches the deepest split along its axis on the way to the focused leaf: it moves
      that ratio, clamped, and nothing else; with no such split the tree stays as it is. */
  lemma {:induction false} ResizeMovesDeepest(t: Layout, focused: string, axisCols: bool, delta: int)
    returns (depth: nat)
    requires t.Contains(focused)
    ensures var path, c := PathTo(t, focused), Resize(t, focused, axisCols, delta);
      && (!c.changed ==> c.layout == t && forall d: nat :: !Governs(t, path, d, axisCols))
      && (c.changed ==>
            && Governs(t, path, depth, axisCols)
            && (forall d: nat | d > depth :: !Governs(t, path, d, axisCols))
            && c.layout == WithRatio(t, path[..depth], Clamp(NodeAt(t, path[..depth]).ratio + delta)))
  {
    hide Governs;
    depth := 0;
    var path, c := PathTo(t, focused), Resize(t, focused, axisCols, delta);
    if t.Leaf? {
      assert path == [];
      NothingGoverns(t, axisCols);
    } else {
      var child := if t.a.Contains(focused) then t.a else t.b;
      var k := ResizeMovesDeepest(child, focused, axisCols, delta);
      assert path[1..] == PathTo(child, focused);
      RootGoverns(t, path, axisCols);
      forall d: nat | d >= 1 ensures Governs(t, path, d, axisCols) <==> Governs(child, path[1..], d - 1, axisCols) {
        GovernsBelow(t, path, d, axisCols);
      }
      var r := Resize(child, focused, axisCols, delta);
      if r.changed {
        depth := k + 1;
        assert Governs(t, path, depth, axisCols);
        InPath(t, path, depth, axisCols);
        assert path[..depth][1..] == path[1..][..k];
      } else {
        assert path[..0] == [];
        forall d: nat | d >= 1 ensures !Governs(t, path, d, axisCols) {
          assert !Governs(child, PathTo(child, focused), d - 1, axisCols);
        }
        if !c.changed {
          forall d: nat ensures !Governs(t, path, d, axisCols) {
            assert d == 0 || d >= 1;
          }
        }
      }
    }
  }

  lemma InPath(t: Layout, path: seq<bool>, depth: nat, axisCols: bool)
    requires Governs(t, path, depth, axisCols)
    ensures depth < |path| && OnTree(t, path[..depth]) && NodeAt(t, path[..depth]).Split?
  {
  }

  lemma NothingGoverns(t: Layout, axisCols: bool)
    ensures forall d: nat :: !Governs(t, [], d, axisCols)
  {
  }

  lemma RootGoverns(t: Layout, path: seq<bool>, axisCols: bool)
    requires t.Split? && path != []
    ensures Governs(t, path, 0, axisCols) <==> (t.orient == Cols) == axisCols
  {
    assert path[..0] == [];
  }

  /** A resize never touches the leaves, keeps ratios in range, and does nothing for a leaf that is
      not open. */
  lemma {:induction false} ResizeKeepsLeaves(t: Layout, focused: string, axisCols: bool, delta: int)
    ensures var c := Resize(t, focused, axisCols, delta);
      && c.layout.Leaves() == t.Leaves()
      && (t.RatiosOk() ==> c.layout.RatiosOk())
      && (!c.changed ==> c.layout == t)
      && (c.changed ==> t.Contains(focused))
  {
    if t.Split? {
      ResizeKeepsLeaves(t.a, focused, axisCols, delta);
      ResizeKeepsLeaves(t.b, focused, axisCols, delta);
    }
  }
}
