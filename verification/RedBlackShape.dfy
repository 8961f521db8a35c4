/** The shape of the red-black tree of qcommon/redblack.c: coloured trees, the path from a subtree
    up to the root, the in-order list, and the balance rules. Memory enters only through node names. */
module RedBlackShape {
  datatype Colour = Black | Red

  /** `struct rbnode`. The sentinel is a node too; its `left` and `right` are itself. A key stands
      for its place in the order that the tree's comparison routine defines, and data for a pointer. */
  class Node {
    var left: Node
    var right: Node
    var up: Node
    var colour: Colour
    var key: int
    var data: nat

    /** The sentinel `rb_null`. */
    constructor Sentinel()
      ensures left == right == up == this && colour == Black
    {
      left, right, up, colour, key, data := this, this, this, Black, 0, 0;
    }

    /** A node fresh from rb_alloc, as rb_traverse fills it in. */
    constructor Leaf(nil: Node, up: Node, key: int)
      ensures left == right == nil && this.up == up && colour == Red && this.key == key && data == 0
    {
      left, right, this.up, colour, this.key, data := nil, nil, up, Red, key, 0;
    }
  }

  datatype Entry = Entry(key: int, data: nat)

  datatype Side = Left | Right

  function Opposite(s: Side): Side {
    if s == Left then Right else Left
  }

  datatype Tree = E | N(left: Tree, node: Node, colour: Colour, entry: Entry, right: Tree)

  /** The way from a subtree to the root: on which side of its parent it hangs, the parent itself,
      the sibling, and the rest of the way. */
  datatype Path = Top | Down(side: Side, node: Node, colour: Colour, entry: Entry, sibling: Tree, up: Path)

  /** The node with `inner` on side `s` and `outer` on the other. */
  function Join(s: Side, inner: Tree, n: Node, c: Colour, e: Entry, outer: Tree): Tree {
    if s == Left then N(inner, n, c, e, outer) else N(outer, n, c, e, inner)
  }

  function Kid(t: Tree, s: Side): Tree
    requires t.N?
  {
    if s == Left then t.left else t.right
  }

  /** The whole tree of which `t` is the subtree at the end of `p`. */
  function Plug(p: Path, t: Tree): Tree {
    if p.Top? then t else Plug(p.up, Join(p.side, t, p.node, p.colour, p.entry, p.sibling))
  }

  function Size(t: Tree): nat {
    if t.E? then 0 else 1 + Size(t.left) + Size(t.right)
  }

  function Recolour(t: Tree, c: Colour): Tree {
    if t.E? then t else t.(colour := c)
  }

  function WithEntry(t: Tree, e: Entry): Tree {
    if t.E? then t else t.(entry := e)
  }

  predicate CanRotate(t: Tree, s: Side) {
    t.N? && Kid(t, Opposite(s)).N?
  }

  /** A rotation towards side `s`: the child on the other side comes up, and its inner subtree
      changes parent. Each node keeps its own colour and entry. */
  function Rotate(t: Tree, s: Side): Tree
    requires CanRotate(t, s)
  {
    var y := Kid(t, Opposite(s));
    Join(s, Join(s, Kid(t, s), t.node, t.colour, t.entry, Kid(y, s)),
         y.node, y.colour, y.entry, Kid(y, Opposite(s)))
  }

  // ---------------------------------------------------------------------------------------------
  // In-order lists

  function Nodes(t: Tree): seq<Node> {
    if t.E? then [] else Nodes(t.left) + [t.node] + Nodes(t.right)
  }

  function Entries(t: Tree): seq<Entry> {
    if t.E? then [] else Entries(t.left) + [t.entry] + Entries(t.right)
  }

  /** What lies before, and after, the end of a path in order. */
  function NodesBefore(p: Path): seq<Node> {
    if p.Top? then [] else
    NodesBefore(p.up) + if p.side == Right then Nodes(p.sibling) + [p.node] else []
  }

  function NodesAfter(p: Path): seq<Node> {
    if p.Top? then [] else
    (if p.side == Left then [p.node] + Nodes(p.sibling) else []) + NodesAfter(p.up)
  }

  function EntriesBefore(p: Path): seq<Entry> {
    if p.Top? then [] else
    EntriesBefore(p.up) + if p.side == Right then Entries(p.sibling) + [p.entry] else []
  }

  function EntriesAfter(p: Path): seq<Entry> {
    if p.Top? then [] else
    (if p.side == Left then [p.entry] + Entries(p.sibling) else []) + EntriesAfter(p.up)
  }

  lemma Regrouped<T>(a: seq<T>, t: seq<T>, x: seq<T>, s: seq<T>, b: seq<T>)
    ensures a + (t + x + s) + b == a + [] + t + (x + s + b)
    ensures a + (s + x + t) + b == a + (s + x) + t + ([] + b)
  {
  }

  lemma {:induction false} PlugInOrder(p: Path, t: Tree)
    ensures Nodes(Plug(p, t)) == NodesBefore(p) + Nodes(t) + NodesAfter(p)
    ensures Entries(Plug(p, t)) == EntriesBefore(p) + Entries(t) + EntriesAfter(p)
    decreases p
  {
    if p.Down? {
      var j := Join(p.side, t, p.node, p.colour, p.entry, p.sibling);
      PlugInOrder(p.up, j);
      Regrouped(NodesBefore(p.up), Nodes(t), [p.node], Nodes(p.sibling), NodesAfter(p.up));
      Regrouped(EntriesBefore(p.up), Entries(t), [p.entry], Entries(p.sibling), EntriesAfter(p.up));
    }
  }

  lemma RotateInOrder(t: Tree, s: Side)
    requires CanRotate(t, s)
    ensures Nodes(Rotate(t, s)) == Nodes(t) && Entries(Rotate(t, s)) == Entries(t)
  {
  }

  lemma NodeLists(t: Tree)
    requires t.N?
    ensures Nodes(t) == Nodes(t.left) + [t.node] + Nodes(t.right)
    ensures Entries(t) == Entries(t.left) + [t.entry] + Entries(t.right)
    ensures Nodes(E) == [] && Entries(E) == []
  {
  }

  lemma {:induction false} InOrderLengths(t: Tree)
    ensures |Nodes(t)| == |Entries(t)| == Size(t)
  {
    if t.N? {
      InOrderLengths(t.left);
      InOrderLengths(t.right);
    }
  }

  lemma {:induction false} PathLengths(p: Path)
    ensures |NodesBefore(p)| == |EntriesBefore(p)| && |NodesAfter(p)| == |EntriesAfter(p)|
  {
    if p.Down? {
      PathLengths(p.up);
      InOrderLengths(p.sibling);
    }
  }

  // ---------------------------------------------------------------------------------------------
  // Balance

  predicate IsRed(t: Tree) {
    t.N? && t.colour == Red
  }

  function Weight(c: Colour): nat {
    if c == Black then 1 else 0
  }

  /** The number of black nodes on the leftmost way down. */
  function BlackHeight(t: Tree): nat {
    if t.E? then 0 else BlackHeight(t.left) + Weight(t.colour)
  }

  /** Rules 3 and 4: no red node has a red child, and all ways down pass equally many black nodes. */
  predicate Balanced(t: Tree) {
    t.N? ==>
      && Balanced(t.left) && Balanced(t.right)
      && BlackHeight(t.left) == BlackHeight(t.right)
      && (t.colour == Red ==> !IsRed(t.left) && !IsRed(t.right))
  }

  predicate RedTop(p: Path) {
    p.Down? && p.colour == Red
  }

  /** The surroundings are balanced if a black-rooted tree of black height `h` is put at the end. */
  predicate Fits(p: Path, h: nat) {
    p.Down? ==>
      && Balanced(p.sibling) && BlackHeight(p.sibling) == h
      && (p.colour == Red ==> !IsRed(p.sibling) && p.up.Down? && !RedTop(p.up))
      && Fits(p.up, h + Weight(p.colour))
  }

  predicate RedBlack(t: Tree) {
    Balanced(t) && !IsRed(t)
  }

  lemma {:induction false} PlugBalanced(p: Path, t: Tree)
    requires Balanced(t) && Fits(p, BlackHeight(t))
    requires IsRed(t) ==> !RedTop(p)
    ensures Balanced(Plug(p, t))
    ensures p.Down? ==> RedBlack(Plug(p, t))
    decreases p
  {
    if p.Down? {
      PlugBalanced(p.up, Join(p.side, t, p.node, p.colour, p.entry, p.sibling));
    }
  }

  /** Conversely, every part of a red-black tree is balanced and fits where it is. */
  lemma {:induction false} UnplugBalanced(p: Path, t: Tree)
    requires Balanced(Plug(p, t)) && (p.Down? ==> !IsRed(Plug(p, t)))
    ensures Balanced(t) && Fits(p, BlackHeight(t)) && (IsRed(t) ==> !RedTop(p))
    decreases p
  {
    if p.Down? {
      UnplugBalanced(p.up, Join(p.side, t, p.node, p.colour, p.entry, p.sibling));
    }
  }

  function Pow2(n: nat): (r: nat)
    ensures r >= 1
  {
    if n == 0 then 1 else 2 * Pow2(n - 1)
  }

  function Height(t: Tree): nat {
    if t.E? then 0 else 1 + if Height(t.left) > Height(t.right) then Height(t.left) else Height(t.right)
  }

  lemma {:induction false} BalancedHeight(t: Tree)
    requires Balanced(t)
    ensures Height(t) <= 2 * BlackHeight(t) + (if IsRed(t) then 1 else 0)
    ensures Size(t) + 1 >= Pow2(BlackHeight(t))
  {
    if t.N? {
      BalancedHeight(t.left);
      BalancedHeight(t.right);
    }
  }

  lemma {:induction false} Pow2Sum(a: nat, b: nat)
    ensures Pow2(a + b) == Pow2(a) * Pow2(b)
  {
    if a > 0 {
      Pow2Sum(a - 1, b);
      assert Pow2(a - 1 + b) == Pow2(a - 1) * Pow2(b);
    }
  }

  lemma {:induction false} Pow2Monotone(a: nat, b: nat)
    requires a <= b
    ensures Pow2(a) <= Pow2(b)
    decreases b - a
  {
    if a < b {
      Pow2Monotone(a, b - 1);
    }
  }

  lemma SquareMonotone(a: nat, b: nat)
    requires a <= b
    ensures a * a <= b * b
  {
    assert a * a <= a * b;
  }

  /** The height is at most twice the binary logarithm of the size plus one. */
  lemma HeightBound(t: Tree)
    requires RedBlack(t)
    ensures Pow2(Height(t)) <= (Size(t) + 1) * (Size(t) + 1)
  {
    var h := BlackHeight(t);
    BalancedHeight(t);
    Pow2Monotone(Height(t), h + h);
    Pow2Sum(h, h);
    SquareMonotone(Pow2(h), Size(t) + 1);
  }

  /** The number of black nodes met on a way down, given by its turns; negative if it
      does not end at a leaf position. */
  function BlacksAlong(t: Tree, way: seq<Side>): (r: int) {
    if t.E? then (if way == [] then 0 else -1)
    else if way == [] then -1
    else var below := BlacksAlong(Kid(t, way[0]), way[1..]);
      if below < 0 then -1 else below + Weight(t.colour)
  }

  /** In a balanced tree every way down to a leaf position meets the same number of black nodes. */
  lemma {:induction false} EveryWayBalanced(t: Tree, way: seq<Side>)
    requires Balanced(t)
    ensures BlacksAlong(t, way) >= 0 ==> BlacksAlong(t, way) == BlackHeight(t)
    decreases t
  {
    if t.N? && way != [] {
      EveryWayBalanced(Kid(t, way[0]), way[1..]);
    }
  }

  /** A way down passes each black node, and no two red ones in a row. */
  lemma {:induction false} WayLength(t: Tree, way: seq<Side>)
    requires Balanced(t) && BlacksAlong(t, way) >= 0
    ensures BlackHeight(t) <= |way| <= 2 * BlackHeight(t) + (if IsRed(t) then 1 else 0)
    decreases t
  {
    if t.N? {
      WayLength(Kid(t, way[0]), way[1..]);
    }
  }

  /** Of any two ways from the root to a leaf position, the one is at most twice as long as the other. */
  lemma LongestTwiceShortest(t: Tree, longest: seq<Side>, shortest: seq<Side>)
    requires RedBlack(t) && BlacksAlong(t, longest) >= 0 && BlacksAlong(t, shortest) >= 0
    ensures |longest| <= 2 * |shortest|
  {
    WayLength(t, longest);
    WayLength(t, shortest);
  }

  // ---------------------------------------------------------------------------------------------
  // Order

  predicate Ascending(s: seq<Entry>) {
    forall i, j :: 0 <= i < j < |s| ==> s[i].key < s[j].key
  }
}
