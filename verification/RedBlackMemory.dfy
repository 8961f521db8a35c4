/** The memory of a red-black tree: the fields of its nodes as a map, and when that memory holds a
    given shape. Everything the C code does to the pointers is one of a few primitive steps, and each
    step is proved here to turn memory holding one shape into memory holding another. */
module RedBlackMemory {
  import opened RedBlackShape

  datatype Cell = Cell(left: Node, right: Node, up: Node, colour: Colour, entry: Entry)

  type Memory = map<Node, Cell>

  function Ptr(t: Tree, nil: Node): Node {
    if t.E? then nil else t.node
  }

  function UpPtr(p: Path, nil: Node): Node {
    if p.Top? then nil else p.node
  }

  function Occupied(t: Tree): set<Node> {
    if t.E? then {} else Occupied(t.left) + {t.node} + Occupied(t.right)
  }

  function OccupiedPath(p: Path): set<Node> {
    if p.Top? then {} else OccupiedPath(p.up) + {p.node} + Occupied(p.sibling)
  }

  /** No node occurs twice. */
  predicate Distinct(t: Tree) {
    t.N? ==>
      && Distinct(t.left) && Distinct(t.right)
      && t.node !in Occupied(t.left) && t.node !in Occupied(t.right)
      && Occupied(t.left) !! Occupied(t.right)
  }

  predicate DistinctPath(p: Path) {
    p.Down? ==>
      && DistinctPath(p.up) && Distinct(p.sibling)
      && p.node !in Occupied(p.sibling) && p.node !in OccupiedPath(p.up)
      && Occupied(p.sibling) !! OccupiedPath(p.up)
  }

  /** Memory `m` holds tree `t`, whose root has parent `up`. */
  predicate Holds(m: Memory, nil: Node, t: Tree, up: Node) {
    t.N? ==>
      && t.node in m && t.node != nil
      && m[t.node] == Cell(Ptr(t.left, nil), Ptr(t.right, nil), up, t.colour, t.entry)
      && Holds(m, nil, t.left, t.node) && Holds(m, nil, t.right, t.node)
  }

  /** Memory `m` holds the surroundings `p`, with pointer `hole` at their end and `root` at the top. */
  predicate HoldsPath(m: Memory, nil: Node, root: Node, p: Path, hole: Node) {
    if p.Top? then root == hole else
      && p.node in m && p.node != nil
      && m[p.node] == (if p.side == Left
                       then Cell(hole, Ptr(p.sibling, nil), UpPtr(p.up, nil), p.colour, p.entry)
                       else Cell(Ptr(p.sibling, nil), hole, UpPtr(p.up, nil), p.colour, p.entry))
      && Holds(m, nil, p.sibling, p.node)
      && HoldsPath(m, nil, root, p.up, p.node)
  }

  /** Memory `m` holds the whole tree and nothing else, looked at from the subtree `t` at the end of
      `p`. Nothing is said about the sentinel's `up` field, which deletion writes. */
  predicate Focused(m: Memory, nil: Node, root: Node, p: Path, t: Tree) {
    && nil in m && m[nil].left == m[nil].right == nil && m[nil].colour == Black
    && Distinct(t) && DistinctPath(p) && Occupied(t) !! OccupiedPath(p)
    && m.Keys == Occupied(t) + OccupiedPath(p) + {nil}
    && Holds(m, nil, t, UpPtr(p, nil))
    && HoldsPath(m, nil, root, p, Ptr(t, nil))
  }

  // ---------------------------------------------------------------------------------------------
  // Moving the focus

  lemma FocusUp(m: Memory, nil: Node, root: Node, p: Path, t: Tree)
    requires p.Down?
    ensures Focused(m, nil, root, p, t) <==>
      Focused(m, nil, root, p.up, Join(p.side, t, p.node, p.colour, p.entry, p.sibling))
  {
  }

  // ---------------------------------------------------------------------------------------------
  // Frames: what changing one node leaves alone

  lemma {:induction false} HoldsFrame(m: Memory, m': Memory, nil: Node, t: Tree, up: Node)
    requires Holds(m, nil, t, up)
    requires forall n <- Occupied(t) :: n in m && n in m' && m[n] == m'[n]
    ensures Holds(m', nil, t, up)
  {
    if t.N? {
      HoldsFrame(m, m', nil, t.left, t.node);
      HoldsFrame(m, m', nil, t.right, t.node);
    }
  }

  lemma {:induction false} HoldsPathFrame(m: Memory, m': Memory, nil: Node, root: Node, p: Path, hole: Node)
    requires HoldsPath(m, nil, root, p, hole)
    requires forall n <- OccupiedPath(p) :: n in m && n in m' && m[n] == m'[n]
    ensures HoldsPath(m', nil, root, p, hole)
  {
    if p.Down? {
      HoldsFrame(m, m', nil, p.sibling, p.node);
      HoldsPathFrame(m, m', nil, root, p.up, p.node);
    }
  }

  lemma {:induction false} HoldsInMemory(m: Memory, nil: Node, t: Tree, up: Node)
    requires Holds(m, nil, t, up)
    ensures Occupied(t) <= m.Keys && nil !in Occupied(t)
  {
    if t.N? {
      HoldsInMemory(m, nil, t.left, t.node);
      HoldsInMemory(m, nil, t.right, t.node);
    }
  }

  lemma {:induction false} HoldsPathInMemory(m: Memory, nil: Node, root: Node, p: Path, hole: Node)
    requires HoldsPath(m, nil, root, p, hole)
    ensures OccupiedPath(p) <= m.Keys && nil !in OccupiedPath(p)
  {
    if p.Down? {
      HoldsInMemory(m, nil, p.sibling, p.node);
      HoldsPathInMemory(m, nil, root, p.up, p.node);
    }
  }

  // ---------------------------------------------------------------------------------------------
  // Primitive steps

  lemma FocusedInMemory(m: Memory, nil: Node, root: Node, p: Path, t: Tree)
    requires Focused(m, nil, root, p, t)
    ensures Occupied(t) <= m.Keys && nil !in Occupied(t)
    ensures OccupiedPath(p) <= m.Keys && nil !in OccupiedPath(p)
  {
    HoldsInMemory(m, nil, t, UpPtr(p, nil));
    HoldsPathInMemory(m, nil, root, p, Ptr(t, nil));
  }

  /** Only the sentinel's cell changes, and it stays black and without children: a tree in this memory
      does not notice. */
  lemma SentinelFrame(m: Memory, m': Memory, nil: Node, root: Node, p: Path, t: Tree)
    requires Focused(m, nil, root, p, t) && m'.Keys == m.Keys
    requires forall n <- m.Keys :: n != nil ==> m'[n] == m[n]
    requires m'[nil].left == m'[nil].right == nil && m'[nil].colour == Black
    ensures Focused(m', nil, root, p, t)
  {
    FocusedInMemory(m, nil, root, p, t);
    HoldsFrame(m, m', nil, t, UpPtr(p, nil));
    HoldsPathFrame(m, m', nil, root, p, Ptr(t, nil));
  }

  /** Storing a colour in the focused node. */
  lemma RecolourStep(m: Memory, nil: Node, root: Node, p: Path, t: Tree, c: Colour)
    requires Focused(m, nil, root, p, t) && t.N?
    ensures Focused(m[t.node := m[t.node].(colour := c)], nil, root, p, Recolour(t, c))
  {
    var m' := m[t.node := m[t.node].(colour := c)];
    FocusedInMemory(m, nil, root, p, t);
    HoldsFrame(m, m', nil, t.left, t.node);
    HoldsFrame(m, m', nil, t.right, t.node);
    HoldsPathFrame(m, m', nil, root, p, t.node);
  }

  /** Storing a key and data in the focused node. */
  lemma EntryStep(m: Memory, nil: Node, root: Node, p: Path, t: Tree, e: Entry)
    requires Focused(m, nil, root, p, t) && t.N?
    ensures Focused(m[t.node := m[t.node].(entry := e)], nil, root, p, WithEntry(t, e))
  {
    var m' := m[t.node := m[t.node].(entry := e)];
    FocusedInMemory(m, nil, root, p, t);
    HoldsFrame(m, m', nil, t.left, t.node);
    HoldsFrame(m, m', nil, t.right, t.node);
    HoldsPathFrame(m, m', nil, root, p, t.node);
  }

  /** Storing a parent pointer in the root of a subtree, or in nothing if it is empty. */
  function SetUp(m: Memory, nil: Node, n: Node, up: Node): (r: Memory)
    requires n in m
    ensures r.Keys == m.Keys
  {
    if n == nil then m else m[n := m[n].(up := up)]
  }

  lemma SetUpHolds(m: Memory, nil: Node, t: Tree, up: Node, up': Node)
    requires Holds(m, nil, t, up) && Distinct(t) && nil in m
    ensures Ptr(t, nil) in m && Holds(SetUp(m, nil, Ptr(t, nil), up'), nil, t, up')
  {
    if t.N? {
      var m' := SetUp(m, nil, t.node, up');
      HoldsInMemory(m, nil, t.left, t.node);
      HoldsInMemory(m, nil, t.right, t.node);
      HoldsFrame(m, m', nil, t.left, t.node);
      HoldsFrame(m, m', nil, t.right, t.node);
    }
  }

  /** Putting pointer `to` in the place of `from` below the node above the hole; at the top that
      changes the root pointer instead. */
  function Relink(m: Memory, nil: Node, up: Node, from: Node, to: Node): (r: Memory)
    requires up != nil ==> up in m
    ensures r.Keys == m.Keys
  {
    if up == nil then m
    else if m[up].left == from then m[up := m[up].(left := to)]
    else m[up := m[up].(right := to)]
  }

  lemma RelinkHolds(m: Memory, nil: Node, root: Node, p: Path, from: Node, to: Node)
    requires HoldsPath(m, nil, root, p, from) && DistinctPath(p)
    requires from != nil && from !in OccupiedPath(p)
    ensures UpPtr(p, nil) != nil ==> UpPtr(p, nil) in m
    ensures HoldsPath(Relink(m, nil, UpPtr(p, nil), from, to), nil, if p.Top? then to else root, p, to)
  {
    if p.Down? {
      var m' := Relink(m, nil, p.node, from, to);
      HoldsInMemory(m, nil, p.sibling, p.node);
      HoldsPathInMemory(m, nil, root, p.up, p.node);
      HoldsFrame(m, m', nil, p.sibling, p.node);
      HoldsPathFrame(m, m', nil, root, p.up, p.node);
    }
  }

  function KidPtr(c: Cell, s: Side): Node {
    if s == Left then c.left else c.right
  }

  function WithKid(c: Cell, s: Side, n: Node): Cell {
    if s == Left then c.(left := n) else c.(right := n)
  }

  /** The rotation of `x` towards side `s`, assignment by assignment as the C code does it. */
  function RotateMemory(m: Memory, nil: Node, x: Node, s: Side): (r: Memory)
    requires x in m && KidPtr(m[x], Opposite(s)) in m
    requires KidPtr(m[KidPtr(m[x], Opposite(s))], s) in m
    requires m[x].up in m
    ensures r.Keys == m.Keys
  {
    var o := Opposite(s);
    var y := KidPtr(m[x], o);
    var b := KidPtr(m[y], s);
    var m1 := m[x := WithKid(m[x], o, b)];
    var m2 := SetUp(m1, nil, b, x);
    var m3 := m2[y := m2[y].(up := m2[x].up)];
    var m4 := Relink(m3, nil, m3[x].up, x, y);
    var m5 := m4[y := WithKid(m4[y], s, x)];
    m5[x := m5[x].(up := y)]
  }

  /** The rotation towards side Left with its assignments written out. */
  lemma LeftRotationIs(m: Memory, nil: Node, x: Node)
    requires x in m && m[x].right in m && m[m[x].right].left in m && m[x].up in m
    ensures var y := m[x].right;
      var b := m[y].left;
      var m2 := SetUp(m[x := m[x].(right := b)], nil, b, x);
      var m3 := m2[y := m2[y].(up := m2[x].up)];
      m3[x].up in m3 &&
      var m4 := Relink(m3, nil, m3[x].up, x, y);
      var m5 := m4[y := m4[y].(left := x)];
      RotateMemory(m, nil, x, Left) == m5[x := m5[x].(up := y)]
  {
  }

  /** The rotation towards side Right with its assignments written out. */
  lemma RightRotationIs(m: Memory, nil: Node, x: Node)
    requires x in m && m[x].left in m && m[m[x].left].right in m && m[x].up in m
    ensures var y := m[x].left;
      var b := m[y].right;
      var m2 := SetUp(m[x := m[x].(left := b)], nil, b, x);
      var m3 := m2[y := m2[y].(up := m2[x].up)];
      m3[x].up in m3 &&
      var m4 := Relink(m3, nil, m3[x].up, x, y);
      var m5 := m4[y := m4[y].(right := x)];
      RotateMemory(m, nil, x, Right) == m5[x := m5[x].(up := y)]
  {
  }

  lemma SetUpIs(m: Memory, nil: Node, n: Node, up: Node)
    requires n in m
    ensures SetUp(m, nil, n, up) == if n == nil then m else m[n := m[n].(up := up)]
  {
  }

  /** Where each assignment of a rotation ends up, for four different nodes x, y, b and up. */
  lemma RotateCells(m: Memory, nil: Node, x: Node, s: Side)
    requires x in m && KidPtr(m[x], Opposite(s)) in m
    requires KidPtr(m[KidPtr(m[x], Opposite(s))], s) in m && m[x].up in m
    requires var y := KidPtr(m[x], Opposite(s)); var b := KidPtr(m[y], s); var up := m[x].up;
      x != y && x != nil && y != nil && b != x && b != y && up != x && up != y && (b == nil || b != up)
    ensures var m' := RotateMemory(m, nil, x, s);
      var y := KidPtr(m[x], Opposite(s)); var b := KidPtr(m[y], s); var up := m[x].up;
      && m'[x] == WithKid(m[x], Opposite(s), b).(up := y)
      && m'[y] == WithKid(m[y], s, x).(up := up)
      && m'[b] == SetUp(m, nil, b, x)[b]
      && m'[up] == Relink(m, nil, up, x, y)[up]
      && forall n <- m :: n != x && n != y && n != b && n != up ==> m'[n] == m[n]
  {
  }

  function MakeCell(s: Side, inner: Node, outer: Node, up: Node, c: Colour, e: Entry): Cell {
    if s == Left then Cell(inner, outer, up, c, e) else Cell(outer, inner, up, c, e)
  }

  /** What a focused tree that can rotate looks like in memory. */
  lemma RotationPieces(m: Memory, nil: Node, root: Node, p: Path, t: Tree, s: Side)
    requires Focused(m, nil, root, p, t) && CanRotate(t, s)
    ensures var yt := Kid(t, Opposite(s));
      var x, y, a, b, c := t.node, yt.node, Kid(t, s), Kid(yt, s), Kid(yt, Opposite(s));
      && x in m && y in m && x != y && nil in m && Ptr(b, nil) in m && UpPtr(p, nil) in m
      && m[x] == MakeCell(s, Ptr(a, nil), y, UpPtr(p, nil), t.colour, t.entry)
      && m[y] == MakeCell(s, Ptr(b, nil), Ptr(c, nil), x, yt.colour, yt.entry)
      && Holds(m, nil, a, x) && Holds(m, nil, b, y) && Holds(m, nil, c, y)
      && x != nil && y != nil
  {
    var yt := Kid(t, Opposite(s));
    assert Distinct(yt) && yt.node in Occupied(yt);
    assert Holds(m, nil, Kid(t, s), t.node) && Holds(m, nil, yt, t.node);
    assert Holds(m, nil, Kid(yt, s), yt.node) && Holds(m, nil, Kid(yt, Opposite(s)), yt.node);
  }

  /** The four parts around a rotation occupy different nodes, none of them x, y or the sentinel. */
  lemma RotationSets(m: Memory, nil: Node, root: Node, p: Path, t: Tree, s: Side)
    requires Focused(m, nil, root, p, t) && CanRotate(t, s)
    ensures var yt := Kid(t, Opposite(s));
      var x, y, a, b, c := t.node, yt.node, Kid(t, s), Kid(yt, s), Kid(yt, Opposite(s));
      && x !in Occupied(a) && x !in Occupied(b) && x !in Occupied(c) && x !in OccupiedPath(p)
      && y !in Occupied(a) && y !in Occupied(b) && y !in Occupied(c) && y !in OccupiedPath(p)
      && nil !in Occupied(a) && nil !in Occupied(b) && nil !in Occupied(c) && nil !in OccupiedPath(p)
      && Occupied(a) !! Occupied(b) && Occupied(b) !! Occupied(c) && Distinct(b)
      && Occupied(a) !! OccupiedPath(p) && Occupied(b) !! OccupiedPath(p) && Occupied(c) !! OccupiedPath(p)
      && Occupied(a) <= m.Keys && Occupied(b) <= m.Keys && Occupied(c) <= m.Keys && OccupiedPath(p) <= m.Keys
  {
    FocusedInMemory(m, nil, root, p, t);
    var yt := Kid(t, Opposite(s));
    assert Distinct(yt) && Occupied(yt) <= Occupied(t);
    assert Occupied(Kid(yt, s)) !! Occupied(Kid(yt, Opposite(s)));
    assert Occupied(Kid(t, s)) !! Occupied(yt);
  }

  lemma PtrOccupied(t: Tree, p: Path, nil: Node)
    requires nil !in Occupied(t) && nil !in OccupiedPath(p)
    ensures if t.E? then Ptr(t, nil) == nil else Ptr(t, nil) in Occupied(t)
    ensures if p.Top? then UpPtr(p, nil) == nil else UpPtr(p, nil) in OccupiedPath(p)
  {
  }

  lemma RotatedHolds(m: Memory, nil: Node, up: Node, t: Tree, s: Side)
    requires CanRotate(t, s)
    requires var yt := Kid(t, Opposite(s));
      var x, y, a, b, c := t.node, yt.node, Kid(t, s), Kid(yt, s), Kid(yt, Opposite(s));
      && x in m && y in m && x != nil && y != nil
      && m[x] == MakeCell(s, Ptr(a, nil), Ptr(b, nil), y, t.colour, t.entry)
      && m[y] == MakeCell(s, x, Ptr(c, nil), up, yt.colour, yt.entry)
      && Holds(m, nil, a, x) && Holds(m, nil, b, x) && Holds(m, nil, c, y)
    ensures Holds(m, nil, Rotate(t, s), up)
  {
  }

  /** The outer two of the three subtrees of a rotation. */
  lemma RotateSides(m: Memory, nil: Node, root: Node, p: Path, t: Tree, s: Side)
    requires Focused(m, nil, root, p, t) && CanRotate(t, s)
    ensures var x, y := t.node, Kid(t, Opposite(s)).node;
      && x in m && KidPtr(m[x], Opposite(s)) == y && y in m && KidPtr(m[y], s) in m && m[x].up in m
      && Holds(RotateMemory(m, nil, x, s), nil, Kid(t, s), x)
      && Holds(RotateMemory(m, nil, x, s), nil, Kid(Kid(t, Opposite(s)), Opposite(s)), y)
  {
    hide Holds, Distinct, RotateMemory, Occupied, OccupiedPath, Focused, HoldsPath, DistinctPath, Relink;
    var yt := Kid(t, Opposite(s));
    RotationPieces(m, nil, root, p, t, s);
    RotationSets(m, nil, root, p, t, s);
    PtrOccupied(Kid(yt, s), p, nil);
    RotateCells(m, nil, t.node, s);
    HoldsFrame(m, RotateMemory(m, nil, t.node, s), nil, Kid(t, s), t.node);
    HoldsFrame(m, RotateMemory(m, nil, t.node, s), nil, Kid(yt, Opposite(s)), yt.node);
  }

  /** The middle subtree, which changes its parent. */
  lemma RotateMiddle(m: Memory, nil: Node, root: Node, p: Path, t: Tree, s: Side)
    requires Focused(m, nil, root, p, t) && CanRotate(t, s)
    ensures var x, y := t.node, Kid(t, Opposite(s)).node;
      && x in m && KidPtr(m[x], Opposite(s)) == y && y in m && KidPtr(m[y], s) in m && m[x].up in m
      && Holds(RotateMemory(m, nil, x, s), nil, Kid(Kid(t, Opposite(s)), s), x)
  {
    hide Holds, Distinct, RotateMemory, Occupied, OccupiedPath, Focused, HoldsPath, DistinctPath, Relink;
    var x, yt := t.node, Kid(t, Opposite(s));
    var b := Kid(yt, s);
    RotationPieces(m, nil, root, p, t, s);
    RotationSets(m, nil, root, p, t, s);
    PtrOccupied(b, p, nil);
    RotateCells(m, nil, x, s);
    SetUpHolds(m, nil, b, yt.node, x);
    HoldsFrame(SetUp(m, nil, Ptr(b, nil), x), RotateMemory(m, nil, x, s), nil, b, x);
  }

  /** The part of `RotateStep` at and below the rotation. */
  lemma RotateStepTree(m: Memory, nil: Node, root: Node, p: Path, t: Tree, s: Side)
    requires Focused(m, nil, root, p, t) && CanRotate(t, s)
    ensures var x, y := t.node, Kid(t, Opposite(s)).node;
      && x in m && KidPtr(m[x], Opposite(s)) == y && y in m && KidPtr(m[y], s) in m && m[x].up in m
      && Holds(RotateMemory(m, nil, x, s), nil, Rotate(t, s), UpPtr(p, nil))
  {
    hide Holds, Distinct, RotateMemory, Occupied, OccupiedPath, Focused, HoldsPath, DistinctPath, Relink, SetUp, Rotate;
    RotationPieces(m, nil, root, p, t, s);
    RotationSets(m, nil, root, p, t, s);
    PtrOccupied(Kid(Kid(t, Opposite(s)), s), p, nil);
    RotateSides(m, nil, root, p, t, s);
    RotateMiddle(m, nil, root, p, t, s);
    RotateCells(m, nil, t.node, s);
    RotatedHolds(RotateMemory(m, nil, t.node, s), nil, UpPtr(p, nil), t, s);
  }

  /** The part of `RotateStep` above the rotation. */
  lemma RotateStepPath(m: Memory, nil: Node, root: Node, p: Path, x: Node, y: Node, s: Side)
    requires x in m && KidPtr(m[x], Opposite(s)) == y && y in m && KidPtr(m[y], s) in m && m[x].up in m
    requires HoldsPath(m, nil, root, p, x) && DistinctPath(p) && m[x].up == UpPtr(p, nil)
    requires x !in OccupiedPath(p) && y !in OccupiedPath(p) && KidPtr(m[y], s) !in OccupiedPath(p)
    requires x != y && x != nil && y != nil && KidPtr(m[y], s) != x && KidPtr(m[y], s) != y
    ensures HoldsPath(RotateMemory(m, nil, x, s), nil, if p.Top? then y else root, p, y)
  {
    HoldsPathInMemory(m, nil, root, p, x);
    PtrOccupied(E, p, nil);
    RelinkHolds(m, nil, root, p, x, y);
    hide HoldsPath, DistinctPath, RotateMemory, OccupiedPath;
    RotateCells(m, nil, x, s);
    HoldsPathFrame(Relink(m, nil, UpPtr(p, nil), x, y), RotateMemory(m, nil, x, s), nil,
                   if p.Top? then y else root, p, y);
  }

  lemma RotatedDistinct(t: Tree, s: Side)
    requires Distinct(t) && CanRotate(t, s)
    ensures Distinct(Rotate(t, s)) && Occupied(Rotate(t, s)) == Occupied(t)
  {
  }

  /** The pointer assignments of a rotation turn memory holding a tree into memory holding the
      rotated tree, in place, with everything around it untouched. */
  lemma RotateStep(m: Memory, nil: Node, root: Node, p: Path, t: Tree, s: Side)
    requires Focused(m, nil, root, p, t) && CanRotate(t, s)
    ensures var x, y := t.node, Kid(t, Opposite(s)).node;
      && x in m && KidPtr(m[x], Opposite(s)) == y && y in m && KidPtr(m[y], s) in m && m[x].up in m
      && Focused(RotateMemory(m, nil, x, s), nil, if p.Top? then y else root, p, Rotate(t, s))
      && (p.Top? <==> m[x].up == nil)
      && RotateMemory(m, nil, x, s)[nil] == m[nil]
  {
    RotationPieces(m, nil, root, p, t, s);
    RotationSets(m, nil, root, p, t, s);
    PtrOccupied(Kid(Kid(t, Opposite(s)), s), p, nil);
    RotatedDistinct(t, s);
    var x, y := t.node, Kid(t, Opposite(s)).node;
    assert HoldsPath(m, nil, root, p, x) && DistinctPath(p);
    RotateStepTree(m, nil, root, p, t, s);
    hide Holds, HoldsPath, Distinct, DistinctPath, RotateMemory, Occupied, OccupiedPath;
    RotateCells(m, nil, x, s);
    RotateStepPath(m, nil, root, p, x, y, s);
  }

  // ---------------------------------------------------------------------------------------------
  // Moving the focus, and what is around it

  /** Looking at the sibling instead of the focused subtree. */
  function Across(p: Path, t: Tree): Path
    requires p.Down?
  {
    Down(Opposite(p.side), p.node, p.colour, p.entry, t, p.up)
  }

  lemma FocusAcross(m: Memory, nil: Node, root: Node, p: Path, t: Tree)
    requires p.Down?
    ensures Focused(m, nil, root, p, t) <==> Focused(m, nil, root, Across(p, t), p.sibling)
  {
    FocusUp(m, nil, root, p, t);
    FocusUp(m, nil, root, Across(p, t), p.sibling);
  }

  lemma FocusDown(m: Memory, nil: Node, root: Node, p: Path, t: Tree, s: Side)
    requires t.N?
    ensures Focused(m, nil, root, p, t) <==>
      Focused(m, nil, root, Down(s, t.node, t.colour, t.entry, Kid(t, Opposite(s)), p), Kid(t, s))
  {
    FocusUp(m, nil, root, Down(s, t.node, t.colour, t.entry, Kid(t, Opposite(s)), p), Kid(t, s));
  }

  lemma {:induction false} RootAbove(m: Memory, nil: Node, root: Node, p: Path, hole: Node)
    requires HoldsPath(m, nil, root, p, hole) && p.Down?
    ensures root in OccupiedPath(p)
  {
    if p.up.Down? {
      RootAbove(m, nil, root, p.up, p.node);
    }
  }

  /** What the pointers around the focus say. */
  lemma Neighbours(m: Memory, nil: Node, root: Node, p: Path, t: Tree)
    requires Focused(m, nil, root, p, t)
    ensures t.N? ==>
      && t.node in m && t.node != nil
      && m[t.node] == Cell(Ptr(t.left, nil), Ptr(t.right, nil), UpPtr(p, nil), t.colour, t.entry)
    ensures p.Down? ==>
      && p.node in m && p.node != nil
      && m[p.node] == MakeCell(p.side, Ptr(t, nil), Ptr(p.sibling, nil), UpPtr(p.up, nil), p.colour, p.entry)
      && (Ptr(t, nil) == Ptr(p.sibling, nil) ==> t.E? && p.sibling.E?)
    ensures p.Top? ==> root == Ptr(t, nil)
    ensures p.Down? ==> root != Ptr(t, nil) && root != nil
    ensures nil in m && m[nil].left == m[nil].right == nil && m[nil].colour == Black
    ensures (t.E? <==> Ptr(t, nil) == nil) && (p.Top? <==> UpPtr(p, nil) == nil)
  {
    FocusedInMemory(m, nil, root, p, t);
    if p.Down? {
      RootAbove(m, nil, root, p, Ptr(t, nil));
      PtrOccupied(t, p, nil);
      PtrOccupied(p.sibling, p.up, nil);
    }
  }

  // ---------------------------------------------------------------------------------------------
  // Growing and shrinking

  function LeafCell(nil: Node, up: Node, key: int): Cell {
    Cell(nil, nil, up, Red, Entry(key, 0))
  }

  lemma LeafCellIs(nil: Node, up: Node, key: int)
    ensures LeafCell(nil, up, key) == Cell(nil, nil, up, Red, Entry(key, 0))
  {
  }

  /** Hanging a new red leaf in an empty place. */
  lemma AttachStep(m: Memory, nil: Node, root: Node, p: Path, z: Node, key: int)
    requires Focused(m, nil, root, p, E) && z !in m
    ensures var m1 := m[z := LeafCell(nil, UpPtr(p, nil), key)];
      var leaf := N(E, z, Red, Entry(key, 0), E);
      if p.Top? then Focused(m1, nil, z, p, leaf)
      else p.node in m && Focused(m1[p.node := WithKid(m[p.node], p.side, z)], nil, root, p, leaf)
  {
    var m1 := m[z := LeafCell(nil, UpPtr(p, nil), key)];
    FocusedInMemory(m, nil, root, p, E);
    if p.Down? {
      var m2 := m1[p.node := WithKid(m[p.node], p.side, z)];
      HoldsFrame(m, m2, nil, p.sibling, p.node);
      HoldsPathFrame(m, m2, nil, root, p.up, p.node);
    }
  }

  /** The only subtree of a node that lacks the other, as rb_delete picks it. */
  function OnlyKid(t: Tree): Tree
    requires t.N?
  {
    if t.left.N? then t.left else t.right
  }

  /** Taking out a node with at most one subtree, which moves up; the sentinel's parent pointer is
      set even if there is no subtree. */
  function SpliceMemory(m: Memory, nil: Node, y: Node, x: Node): Memory
    requires y in m && x in m && m[y].up in m
  {
    Relink(m[x := m[x].(up := m[y].up)], nil, m[y].up, y, x)
  }

  lemma SplicedDistinct(t: Tree)
    requires Distinct(t) && t.N? && (t.left.E? || t.right.E?)
    ensures Distinct(OnlyKid(t)) && t.node !in Occupied(OnlyKid(t))
    ensures Occupied(t) == Occupied(OnlyKid(t)) + {t.node}
  {
  }

  /** The part of `SpliceStep` above the node. */
  lemma SpliceStepPath(m: Memory, nil: Node, root: Node, p: Path, t: Tree)
    requires Focused(m, nil, root, p, t) && t.N? && (t.left.E? || t.right.E?)
    ensures var y, x := t.node, Ptr(OnlyKid(t), nil);
      && y in m && x in m && m[y].up in m
      && HoldsPath(SpliceMemory(m, nil, y, x) - {y}, nil, if p.Top? then x else root, p, x)
  {
    var y, k := t.node, OnlyKid(t);
    var x := Ptr(k, nil);
    FocusedInMemory(m, nil, root, p, t);
    SplicedDistinct(t);
    PtrOccupied(k, p, nil);
    PtrOccupied(t, p, nil);
    var m1 := m[x := m[x].(up := m[y].up)];
    hide Distinct, Occupied;
    HoldsPathFrame(m, m1, nil, root, p, y);
    RelinkHolds(m1, nil, root, p, y, x);
    var m2 := SpliceMemory(m, nil, y, x);
    HoldsPathFrame(m2, m2 - {y}, nil, if p.Top? then x else root, p, x);
  }

  lemma SpliceStepTree(m: Memory, nil: Node, p: Path, t: Tree)
    requires Holds(m, nil, t, UpPtr(p, nil)) && Distinct(t) && t.N? && (t.left.E? || t.right.E?)
    requires nil in m && UpPtr(p, nil) in m && UpPtr(p, nil) !in Occupied(t) && nil !in Occupied(t)
    requires Occupied(t) <= m.Keys
    ensures var y, x := t.node, Ptr(OnlyKid(t), nil);
      Holds(SpliceMemory(m, nil, y, x) - {y}, nil, OnlyKid(t), UpPtr(p, nil))
  {
    var y, k := t.node, OnlyKid(t);
    var m' := SpliceMemory(m, nil, y, Ptr(k, nil)) - {y};
    if k.N? {
      assert Distinct(k) && Holds(m, nil, k, y);
      HoldsFrame(m, m', nil, k.left, k.node);
      HoldsFrame(m, m', nil, k.right, k.node);
    }
  }

  lemma SpliceStep(m: Memory, nil: Node, root: Node, p: Path, t: Tree)
    requires Focused(m, nil, root, p, t) && t.N? && (t.left.E? || t.right.E?)
    ensures var y, x := t.node, Ptr(OnlyKid(t), nil);
      && y in m && x in m && x != y && m[y].up in m && (p.Top? <==> m[y].up == nil)
      && SpliceMemory(m, nil, y, x).Keys == m.Keys
      && SpliceMemory(m, nil, y, x)[x].up == UpPtr(p, nil)
      && Focused(SpliceMemory(m, nil, y, x) - {y}, nil, if p.Top? then x else root, p, OnlyKid(t))
  {
    FocusedInMemory(m, nil, root, p, t);
    PtrOccupied(OnlyKid(t), p, nil);
    SpliceStepTree(m, nil, p, t);
    SpliceStepPath(m, nil, root, p, t);
    SplicedDistinct(t);
    hide Holds, HoldsPath, Distinct, DistinctPath, Occupied, OccupiedPath;
  }

  lemma WithKidIs(c: Cell, s: Side, n: Node)
    ensures WithKid(c, s, n) == if s == Left then c.(left := n) else c.(right := n)
  {
  }

  /** The i-th node in order holds the i-th entry. */
  lemma {:induction false} NodeHoldsEntry(m: Memory, nil: Node, t: Tree, up: Node, i: nat)
    requires Holds(m, nil, t, up) && i < |Nodes(t)|
    ensures |Nodes(t)| == |Entries(t)| && Nodes(t)[i] in m && Nodes(t)[i] in Occupied(t)
    ensures m[Nodes(t)[i]].entry == Entries(t)[i]
  {
    InOrderLengths(t);
    InOrderLengths(t.left);
    var l := |Nodes(t.left)|;
    if i < l {
      NodeHoldsEntry(m, nil, t.left, t.node, i);
    } else if i > l {
      InOrderLengths(t.right);
      NodeHoldsEntry(m, nil, t.right, t.node, i - l - 1);
    }
  }
}
