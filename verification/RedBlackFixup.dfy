/** The cases of the two fix-up loops of qcommon/redblack.c, as changes of a focused tree. For each
    case: the in-order list stays, and the balance rules hold again except where the loop looks next. */
module RedBlackFixup {
  import opened RedBlackShape
  import opened RedBlackMemory

  datatype Focus = Focus(p: Path, t: Tree)

  predicate SameOrder(f: Focus, g: Focus) {
    && Nodes(Plug(f.p, f.t)) == Nodes(Plug(g.p, g.t))
    && Entries(Plug(f.p, f.t)) == Entries(Plug(g.p, g.t))
  }

  function Depth(p: Path): nat {
    if p.Top? then 0 else 1 + Depth(p.up)
  }

  lemma PlugSame(p: Path, t: Tree, t': Tree)
    requires Nodes(t) == Nodes(t') && Entries(t) == Entries(t')
    ensures SameOrder(Focus(p, t), Focus(p, t'))
  {
    PlugInOrder(p, t);
    PlugInOrder(p, t');
  }

  function Above(p: Path, t: Tree): Tree
    requires p.Down?
  {
    Join(p.side, t, p.node, p.colour, p.entry, p.sibling)
  }

  // ---------------------------------------------------------------------------------------------
  // After an insertion: the focus is red, and only its parent may be red too

  predicate RedFocus(f: Focus) {
    IsRed(f.t) && Balanced(f.t) && Fits(f.p, BlackHeight(f.t))
  }

  predicate InsertPending(f: Focus) {
    RedFocus(f) && RedTop(f.p)
  }

  /** The uncle is red: parent and uncle turn black, the grandparent red, and the focus climbs. */
  function RecolouredUncle(f: Focus): Focus
    requires f.p.Down? && f.p.up.Down?
  {
    var p, g := f.p, f.p.up;
    Focus(g.up, Join(g.side, Join(p.side, f.t, p.node, Black, p.entry, p.sibling), g.node, Red, g.entry,
                     Recolour(g.sibling, Black)))
  }

  lemma RecolouredUncleKeeps(f: Focus)
    requires InsertPending(f) && IsRed(f.p.up.sibling)
    ensures RedFocus(RecolouredUncle(f)) && SameOrder(f, RecolouredUncle(f))
    ensures Depth(RecolouredUncle(f).p) < Depth(f.p)
  {
    var p := f.p;
    var q := Join(p.side, f.t, p.node, Black, p.entry, p.sibling);
    assert Nodes(q) == Nodes(Above(p, f.t)) && Entries(q) == Entries(Above(p, f.t));
    var u := Recolour(p.up.sibling, Black);
    assert Nodes(u) == Nodes(p.up.sibling) && Entries(u) == Entries(p.up.sibling);
    assert Fits(p.up, BlackHeight(f.t));
    assert Balanced(q) && BlackHeight(q) == BlackHeight(f.t) + 1;
    assert Balanced(u) && BlackHeight(u) == BlackHeight(f.t) + 1;
    PlugSame(p.up.up, Above(p.up, Above(p, f.t)), RecolouredUncle(f).t);
  }

  /** The focus is an inner grandchild: a rotation at the parent makes the parent the focus. */
  function TurnedOut(f: Focus): Focus
    requires f.p.Down? && f.p.up.Down? && f.t.N?
  {
    var p, s := f.p, f.p.up.side;
    Focus(Down(s, f.t.node, f.t.colour, f.t.entry, Kid(f.t, Opposite(s)), p.up),
          Join(s, p.sibling, p.node, p.colour, p.entry, Kid(f.t, s)))
  }

  lemma TurnedOutIsRotation(f: Focus)
    requires f.p.Down? && f.p.up.Down? && f.t.N? && f.p.side != f.p.up.side
    ensures CanRotate(Above(f.p, f.t), f.p.up.side)
    ensures Above(TurnedOut(f).p, TurnedOut(f).t) == Rotate(Above(f.p, f.t), f.p.up.side)
  {
  }

  lemma TurnedOutKeeps(f: Focus)
    requires InsertPending(f) && f.p.side != f.p.up.side
    ensures InsertPending(TurnedOut(f)) && SameOrder(f, TurnedOut(f))
    ensures TurnedOut(f).p.side == TurnedOut(f).p.up.side && TurnedOut(f).p.up == f.p.up
    ensures Depth(TurnedOut(f).p) == Depth(f.p)
  {
    TurnedOutIsRotation(f);
    RotateInOrder(Above(f.p, f.t), f.p.up.side);
    PlugSame(f.p.up, Above(f.p, f.t), Above(TurnedOut(f).p, TurnedOut(f).t));
  }

  /** The focus is an outer grandchild under a black uncle: parent black, grandparent red, and a
      rotation at the grandparent puts the parent on top. */
  function Lifted(f: Focus): Focus
    requires f.p.Down? && f.p.up.Down?
  {
    var p, g := f.p, f.p.up;
    Focus(Down(p.side, p.node, Black, p.entry, Join(p.side, p.sibling, g.node, Red, g.entry, g.sibling), g.up), f.t)
  }

  /** The same focus after the two recolourings and before the rotation. */
  function Repainted(f: Focus): Focus
    requires f.p.Down? && f.p.up.Down?
  {
    Focus(f.p.(colour := Black, up := f.p.up.(colour := Red)), f.t)
  }

  lemma LiftedIsRotation(f: Focus)
    requires f.p.Down? && f.p.up.Down? && f.p.side == f.p.up.side
    ensures var r := Repainted(f); var top := Above(r.p.up, Above(r.p, r.t));
      CanRotate(top, Opposite(f.p.side)) && Above(Lifted(f).p, f.t) == Rotate(top, Opposite(f.p.side))
  {
  }

  lemma LiftedKeeps(f: Focus)
    requires InsertPending(f) && f.p.side == f.p.up.side && !IsRed(f.p.up.sibling)
    ensures RedFocus(Lifted(f)) && !RedTop(Lifted(f).p) && SameOrder(f, Lifted(f))
    ensures Depth(Lifted(f).p) < Depth(f.p)
  {
    LiftedIsRotation(f);
    var r := Repainted(f);
    var top := Above(r.p.up, Above(r.p, r.t));
    RotateInOrder(top, Opposite(f.p.side));
    PlugSame(f.p.up.up, Above(f.p.up, Above(f.p, f.t)), Above(Lifted(f).p, f.t));
    assert Fits(f.p.up, BlackHeight(f.t));
    assert Balanced(Lifted(f).p.sibling) && BlackHeight(Lifted(f).p.sibling) == BlackHeight(f.t);
  }

  lemma {:induction false} PlugIsNode(p: Path, t: Tree)
    requires p.Down?
    ensures Plug(p, t).N?
    decreases p
  {
    if p.up.Down? {
      PlugIsNode(p.up, Above(p, t));
    }
  }

  /** When the loop stops and the root has been painted black, every rule holds. */
  lemma InsertDone(f: Focus)
    requires RedFocus(f) && !RedTop(f.p)
    ensures RedBlack(Recolour(Plug(f.p, f.t), Black))
    ensures f.p.Down? ==> Recolour(Plug(f.p, f.t), Black) == Plug(f.p, f.t)
  {
    PlugBalanced(f.p, f.t);
    if f.p.Down? {
      PlugIsNode(f.p, f.t);
    }
  }

  // ---------------------------------------------------------------------------------------------
  // After a deletion: the focus is one black node short

  /** The rules hold below the root of `t`, whose own colour may clash with its children's. */
  predicate Loose(t: Tree) {
    t.N? ==> Balanced(t.left) && Balanced(t.right) && BlackHeight(t.left) == BlackHeight(t.right)
  }

  predicate Short(f: Focus) {
    Loose(f.t) && Fits(f.p, BlackHeight(f.t) + 1)
  }

  predicate DeletePending(f: Focus) {
    Short(f) && f.p.Down? && !IsRed(f.t)
  }

  /** The sibling is red: it turns black, the parent red, and a rotation gives the focus a new sibling. */
  function BlackSibling(f: Focus): Focus
    requires f.p.Down? && f.p.sibling.N?
  {
    var p, w, s := f.p, f.p.sibling, f.p.side;
    Focus(Down(s, p.node, Red, p.entry, Kid(w, s),
               Down(s, w.node, Black, w.entry, Kid(w, Opposite(s)), p.up)), f.t)
  }

  lemma BlackSiblingIsRotation(f: Focus)
    requires f.p.Down? && f.p.sibling.N?
    ensures var p := f.p.(colour := Red, sibling := Recolour(f.p.sibling, Black));
      var b := BlackSibling(f);
      CanRotate(Above(p, f.t), p.side) && Above(b.p.up, Above(b.p, f.t)) == Rotate(Above(p, f.t), p.side)
  {
  }

  lemma BlackSiblingKeeps(f: Focus)
    requires DeletePending(f) && IsRed(f.p.sibling)
    ensures DeletePending(BlackSibling(f)) && SameOrder(f, BlackSibling(f))
    ensures BlackSibling(f).p.sibling.N? && !IsRed(BlackSibling(f).p.sibling)
  {
    BlackSiblingIsRotation(f);
    var p := f.p.(colour := Red, sibling := Recolour(f.p.sibling, Black));
    RotateInOrder(Above(p, f.t), p.side);
    var b := BlackSibling(f);
    PlugSame(f.p.up, Above(f.p, f.t), Above(b.p.up, Above(b.p, f.t)));
  }

  lemma SiblingExists(f: Focus)
    requires DeletePending(f)
    ensures f.p.sibling.N?
  {
  }

  /** The sibling and both its children are black: it turns red and the shortage moves up. */
  function RedSibling(f: Focus): Focus
    requires f.p.Down?
  {
    Focus(f.p.up, Above(f.p.(sibling := Recolour(f.p.sibling, Red)), f.t))
  }

  lemma RedSiblingKeeps(f: Focus)
    requires DeletePending(f) && !IsRed(f.p.sibling)
    requires f.p.sibling.N? && !IsRed(f.p.sibling.left) && !IsRed(f.p.sibling.right)
    ensures Short(RedSibling(f)) && SameOrder(f, RedSibling(f))
  {
    PlugSame(f.p.up, Above(f.p, f.t), RedSibling(f).t);
  }

  function PaintedSibling(w: Tree, s: Side): (r: Tree)
    requires w.N? && Kid(w, s).N?
    ensures CanRotate(r, Opposite(s))
  {
    Join(s, Recolour(Kid(w, s), Black), w.node, Red, w.entry, Kid(w, Opposite(s)))
  }

  /** The sibling's outer child is black and its inner one red: a rotation at the sibling makes the
      outer child red. */
  function OuterRed(f: Focus): Focus
    requires f.p.Down? && f.p.sibling.N? && Kid(f.p.sibling, f.p.side).N?
  {
    var w, s := f.p.sibling, f.p.side;
    Focus(f.p.(sibling := Rotate(PaintedSibling(w, s), Opposite(s))), f.t)
  }

  lemma SiblingRaised(w: Tree, s: Side)
    requires Balanced(w) && w.N? && !IsRed(w) && IsRed(Kid(w, s)) && !IsRed(Kid(w, Opposite(s)))
    ensures var r := Rotate(PaintedSibling(w, s), Opposite(s));
      Balanced(r) && BlackHeight(r) == BlackHeight(w)
  {
    var o := Opposite(s);
    var inner, outer := Kid(w, s), Kid(w, o);
    assert Balanced(inner) && Balanced(outer) && BlackHeight(inner) == BlackHeight(outer);
    assert Balanced(Kid(inner, s)) && Balanced(Kid(inner, o));
    assert BlackHeight(Kid(inner, s)) == BlackHeight(Kid(inner, o)) == BlackHeight(outer);
    var low := Join(o, outer, w.node, Red, w.entry, Kid(inner, o));
    assert Rotate(PaintedSibling(w, s), o) == Join(o, low, inner.node, Black, inner.entry, Kid(inner, s));
    assert Balanced(low) && BlackHeight(low) == BlackHeight(outer);
  }

  lemma OuterRedKeeps(f: Focus)
    requires DeletePending(f) && f.p.sibling.N? && !IsRed(f.p.sibling)
    requires IsRed(Kid(f.p.sibling, f.p.side)) && !IsRed(Kid(f.p.sibling, Opposite(f.p.side)))
    ensures DeletePending(OuterRed(f)) && SameOrder(f, OuterRed(f))
    ensures var w := OuterRed(f).p.sibling; w.N? && !IsRed(w) && IsRed(Kid(w, Opposite(f.p.side)))
  {
    var w := f.p.sibling;
    assert Nodes(PaintedSibling(w, f.p.side)) == Nodes(w) && Entries(PaintedSibling(w, f.p.side)) == Entries(w);
    RotateInOrder(PaintedSibling(w, f.p.side), Opposite(f.p.side));
    PlugSame(f.p.up, Above(f.p, f.t), Above(OuterRed(f).p, f.t));
    SiblingRaised(w, f.p.side);
  }

  /** The sibling's outer child is red: the sibling takes the parent's colour, both its new children
      turn black, and a rotation at the parent ends the shortage. */
  function Filled(f: Focus): Focus
    requires f.p.Down? && f.p.sibling.N?
  {
    var p, w, s := f.p, f.p.sibling, f.p.side;
    Focus(p.up, Join(s, Join(s, f.t, p.node, Black, p.entry, Kid(w, s)), w.node, p.colour, w.entry,
                     Recolour(Kid(w, Opposite(s)), Black)))
  }

  lemma FilledIsRotation(f: Focus)
    requires f.p.Down? && f.p.sibling.N?
    ensures var s := f.p.side; var w := f.p.sibling;
      var w' := Join(s, Kid(w, s), w.node, f.p.colour, w.entry, Recolour(Kid(w, Opposite(s)), Black));
      var top := Above(f.p.(colour := Black, sibling := w'), f.t);
      CanRotate(top, s) && Filled(f).t == Rotate(top, s)
  {
  }

  lemma RecolourLists(t: Tree, c: Colour)
    ensures Nodes(Recolour(t, c)) == Nodes(t) && Entries(Recolour(t, c)) == Entries(t)
  {
    if t.N? {
      NodeLists(t);
      NodeLists(Recolour(t, c));
    }
  }

  /** Repainting a node and its child on the far side leaves the lists alone. */
  lemma RepaintedLists(w: Tree, s: Side, c: Colour, d: Colour)
    requires w.N?
    ensures var w' := Join(s, Kid(w, s), w.node, c, w.entry, Recolour(Kid(w, Opposite(s)), d));
      Nodes(w') == Nodes(w) && Entries(w') == Entries(w)
  {
    hide Nodes, Entries;
    RecolourLists(Kid(w, Opposite(s)), d);
    NodeLists(w);
    NodeLists(Join(s, Kid(w, s), w.node, c, w.entry, Recolour(Kid(w, Opposite(s)), d)));
    hide Recolour;
  }

  lemma FilledInOrder(f: Focus)
    requires f.p.Down? && f.p.sibling.N? && IsRed(Kid(f.p.sibling, Opposite(f.p.side)))
    ensures SameOrder(f, Filled(f))
  {
    FilledIsRotation(f);
    var s, w := f.p.side, f.p.sibling;
    var w' := Join(s, Kid(w, s), w.node, f.p.colour, w.entry, Recolour(Kid(w, Opposite(s)), Black));
    RepaintedLists(w, s, f.p.colour, Black);
    hide Nodes, Entries, Plug;
    var a, a' := Above(f.p, f.t), Above(f.p.(colour := Black, sibling := w'), f.t);
    NodeLists(a);
    NodeLists(a');
    RotateInOrder(a', s);
    PlugSame(f.p.up, a, Filled(f).t);
  }

  lemma FilledBalanced(f: Focus)
    requires DeletePending(f) && f.p.sibling.N? && !IsRed(f.p.sibling)
    requires IsRed(Kid(f.p.sibling, Opposite(f.p.side)))
    ensures RedBlack(Plug(Filled(f).p, Filled(f).t))
  {
    hide Nodes, Entries;
    var s, w := f.p.side, f.p.sibling;
    var k := Kid(w, Opposite(s));
    assert Balanced(Kid(w, s)) && Balanced(k) && BlackHeight(Kid(w, s)) == BlackHeight(k) == BlackHeight(f.t);
    assert Balanced(Recolour(k, Black)) && BlackHeight(Recolour(k, Black)) == BlackHeight(f.t) + 1;
    var low := Join(s, f.t, w.node, Black, w.entry, Kid(w, s));
    assert BlackHeight(low) == BlackHeight(f.t) + 1 && Balanced(f.t);
    assert BlackHeight(Filled(f).t) == BlackHeight(f.t) + 1 + Weight(f.p.colour);
    PlugBalanced(f.p.up, Filled(f).t);
  }

  lemma FilledKeeps(f: Focus)
    requires DeletePending(f) && f.p.sibling.N? && !IsRed(f.p.sibling)
    requires IsRed(Kid(f.p.sibling, Opposite(f.p.side)))
    ensures RedBlack(Plug(Filled(f).p, Filled(f).t)) && SameOrder(f, Filled(f))
  {
    FilledInOrder(f);
    FilledBalanced(f);
    hide *;
  }

  /** When the loop stops, painting the focus black restores every rule. */
  lemma DeleteDone(f: Focus)
    requires Short(f) && (f.p.Top? || IsRed(f.t))
    ensures RedBlack(Plug(f.p, Recolour(f.t, Black)))
    ensures SameOrder(f, Focus(f.p, Recolour(f.t, Black)))
  {
    PlugBalanced(f.p, Recolour(f.t, Black));
    PlugSame(f.p, f.t, Recolour(f.t, Black));
  }
}
