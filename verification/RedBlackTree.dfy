/** The red-black tree of qcommon/redblack.c as a mutable object. Every method is proved against the
    in-order list of the tree's entries; the shape behind that list is a ghost field. Trees built
    with preallocated nodes, which are never deleted from, are not part of this model. */
module RedBlackTree {
  import opened RedBlackShape
  import opened RedBlackMemory
  import opened RedBlackFixup
  import opened RedBlackOrder
  import opened RedBlackDelete

  ghost function CellOf(n: Node): Cell
    reads n
  {
    Cell(n.left, n.right, n.up, n.colour, Entry(n.key, n.data))
  }

  function KidOf(n: Node, s: Side): Node
    reads n
  {
    if s == Left then n.left else n.right
  }

  /** The modes of rblookup. */
  datatype Mode = Equal | GreaterEq | LessEq | Less | Greater | Next | Prev | First | Last

  function PlaceFrom(mode: Mode, found: bool, i: int): int {
    match mode
    case GreaterEq => i
    case LessEq => if found then i else i - 1
    case Less => i - 1
    case Greater => if found then i + 1 else i
    case Next => if found then i + 1 else -1
    case Prev => if found then i - 1 else -1
    case _ => if found then i else -1
  }

  /** Where in a sorted list the entry is that a mode asks for; outside the list if there is none. */
  function Place(s: seq<Entry>, mode: Mode, key: int): int {
    if mode == First then 0 else if mode == Last then |s| - 1 else PlaceFrom(mode, Has(s, key), Rank(s, key))
  }

  /** Only the first entry has the least key, and only the last the greatest. */
  lemma EndsMeaning(s: seq<Entry>, i: nat)
    requires Ascending(s) && i < |s|
    ensures i == 0 <==> forall e <- s :: s[i].key <= e.key
    ensures i == |s| - 1 <==> forall e <- s :: e.key <= s[i].key
  {
    if forall e <- s :: s[i].key <= e.key {
      assert s[0] in s;
    }
    if forall e <- s :: e.key <= s[i].key {
      assert s[|s| - 1] in s;
    }
  }

  /** What the places mean for every entry of the list: the place is the nearest entry on the side
      that the mode names. */
  lemma PlaceMeaning(s: seq<Entry>, mode: Mode, key: int, i: nat)
    requires Ascending(s) && i < |s|
    ensures var k := Place(s, mode, key);
      && (mode == GreaterEq ==> (s[i].key >= key <==> i >= k))
      && (mode == Greater ==> (s[i].key > key <==> i >= k))
      && (mode == LessEq ==> (s[i].key <= key <==> i <= k))
      && (mode == Less ==> (s[i].key < key <==> i <= k))
      && (mode == Equal ==> (s[i].key == key <==> i == k))
      && (mode == Next ==> (i == k <==> i > 0 && s[i - 1].key == key))
      && (mode == Prev ==> (i == k <==> i + 1 < |s| && s[i + 1].key == key))
      && (mode == First ==> (i == k <==> forall e <- s :: s[i].key <= e.key))
      && (mode == Last ==> (i == k <==> forall e <- s :: e.key <= s[i].key))
  {
    EndsMeaning(s, i);
    RankFinds(s, key);
    var r := Rank(s, key);
    assert i < r ==> s[i] == s[..r][i];
    assert 0 < i <= r ==> s[i - 1] == s[..r][i - 1];
    assert i + 1 < r ==> s[i + 1] == s[..r][i + 1];
    hide Rank;
  }

  /** `after` lists one more entry than `before`: the new key, with no data, at its rank. */
  ghost predicate InsertedIn(before: Tree, after: Tree, z: Node, key: int) {
    var all, i := Entries(before), Rank(Entries(before), key);
    && |Nodes(before)| == |all|
    && Entries(after) == Inserted(all, i, Entry(key, 0))
    && Nodes(after) == Inserted(Nodes(before), i, z)
    && Contents(Entries(after)) == Contents(all)[key := 0]
  }

  // ---------------------------------------------------------------------------------------------
  // Places in the tree and in its lists

  /** `after` lists everything in `before` except the key's entry, and one node fewer: the one at `j`. */
  ghost predicate RemovedFrom(before: Tree, after: Tree, key: int, j: nat) {
    var all, i := Entries(before), Rank(Entries(before), key);
    && i < |all| == |Nodes(before)| && all[i].key == key
    && i <= j <= i + 1 && j < |Nodes(before)| && (i == 0 ==> j == 0)
    && Entries(after) == Without(all, i)
    && Nodes(after) == Without(Nodes(before), j)
    && Contents(Entries(after)) == Contents(all) - {key}
  }

  /** What an insertion and a removal mean for the map that the tree stands for, and for its nodes. */
  lemma InsertedMeans(before: Tree, after: Tree, z: Node, key: int)
    requires InsertedIn(before, after, z, key)
    ensures Contents(Entries(after)) == Contents(Entries(before))[key := 0]
    ensures multiset(Nodes(after)) == multiset(Nodes(before)) + multiset{z}
  {
    var i := Rank(Entries(before), key);
    hide Nodes, Entries, Contents, Rank;
    assert Nodes(before) == Nodes(before)[..i] + Nodes(before)[i..];
  }

  lemma RemovedMeans(before: Tree, after: Tree, key: int, j: nat)
    requires RemovedFrom(before, after, key, j)
    ensures Contents(Entries(after)) == Contents(Entries(before)) - {key}
    ensures j < |Nodes(before)| && multiset(Nodes(after)) == multiset(Nodes(before)) - multiset{Nodes(before)[j]}
  {
    hide Nodes, Entries, Contents, Rank;
    assert Nodes(before) == Nodes(before)[..j] + [Nodes(before)[j]] + Nodes(before)[j + 1..];
  }

  /** The nodes on side `s` of the end of a path, and the one next to it. */
  function Beyond(p: Path, s: Side): seq<Node> {
    if s == Right then NodesAfter(p) else NodesBefore(p)
  }

  function Nearest(ns: seq<Node>, s: Side, nil: Node): Node {
    if ns == [] then nil else ns[if s == Right then 0 else |ns| - 1]
  }

  lemma BeyondUp(p: Path, s: Side)
    requires p.Down? && p.side == s
    ensures Beyond(p, s) == Beyond(p.up, s) && Depth(p.up) < Depth(p)
  {
  }

  lemma BeyondEnd(p: Path, s: Side)
    requires p.Down? ==> p.side != s
    ensures forall nil: Node :: Nearest(Beyond(p, s), s, nil) == UpPtr(p, nil)
  {
  }

  lemma FocusPlace(f: Focus)
    requires f.t.N?
    ensures var i := |NodesBefore(f.p)| + |Nodes(f.t.left)|; var whole := Plug(f.p, f.t);
      && i == |EntriesBefore(f.p)| + |Entries(f.t.left)| && i < |Nodes(whole)| == |Entries(whole)|
      && Nodes(whole)[i] == f.t.node && Entries(whole)[i] == f.t.entry
  {
    var p, t := f.p, f.t;
    PlugInOrder(p, t);
    PathLengths(p);
    InOrderLengths(t);
    InOrderLengths(t.left);
    assert Nodes(t) == Nodes(t.left) + [t.node] + Nodes(t.right);
    assert Entries(t) == Entries(t.left) + [t.entry] + Entries(t.right);
    hide Nodes, Entries, Plug, NodesBefore, NodesAfter, EntriesBefore, EntriesAfter, Size;
    Regroup(NodesBefore(p), Nodes(t.left), t.node, Nodes(t.right), NodesAfter(p));
    Regroup(EntriesBefore(p), Entries(t.left), t.entry, Entries(t.right), EntriesAfter(p));
  }

  /** The neighbour of a node in order is the near edge of its subtree on that side, or the nearest
      node beyond the path if that subtree is empty. */
  lemma NeighbourPlace(f: Focus, s: Side, nil: Node)
    requires f.t.N?
    ensures var all := Nodes(Plug(f.p, f.t)); var i := |NodesBefore(f.p)| + |Nodes(f.t.left)|;
      var j := if s == Right then i + 1 else i - 1; var k := Nodes(Kid(f.t, s));
      (if 0 <= j < |all| then all[j] else nil)
        == if Kid(f.t, s).N? then Nearest(k, s, nil) else Nearest(Beyond(f.p, s), s, nil)
    ensures Kid(f.t, s).N? ==> |Nodes(Kid(f.t, s))| > 0
  {
    var p, t := f.p, f.t;
    PlugInOrder(p, t);
    assert Nodes(t) == Nodes(t.left) + [t.node] + Nodes(t.right);
    assert Kid(t, s).E? <==> Nodes(Kid(t, s)) == [];
    hide Nodes, Plug, NodesBefore, NodesAfter;
    Regroup(NodesBefore(p), Nodes(t.left), t.node, Nodes(t.right), NodesAfter(p));
  }

  lemma {:induction false} OccupiedListed(t: Tree, z: Node)
    requires z in Occupied(t)
    ensures z in Nodes(t)
    decreases t
  {
    if z in Occupied(t.left) {
      OccupiedListed(t.left, z);
    } else if z in Occupied(t.right) {
      OccupiedListed(t.right, z);
    }
  }

  /** Two subtrees alike in colours and black heights are alike in any surroundings. */
  lemma {:induction false} PlugAlike(p: Path, t: Tree, u: Tree)
    requires BlackHeight(t) == BlackHeight(u) && IsRed(t) == IsRed(u) && Balanced(t) == Balanced(u)
    ensures RedBlack(Plug(p, t)) == RedBlack(Plug(p, u))
    decreases p
  {
    if p.Down? {
      PlugAlike(p.up, Join(p.side, t, p.node, p.colour, p.entry, p.sibling),
                Join(p.side, u, p.node, p.colour, p.entry, p.sibling));
    }
  }

  lemma SameButEntry(t: Tree, e: Entry)
    requires t.N?
    ensures var u := WithEntry(t, e);
      && Nodes(u) == Nodes(t) && BlackHeight(t) == BlackHeight(u) && IsRed(t) == IsRed(u) && Balanced(t) == Balanced(u)
      && Entries(t) == Entries(t.left) + [t.entry] + Entries(t.right)
      && Entries(u) == Entries(t.left) + [e] + Entries(t.right)
  {
  }

  lemma UpdatedMiddle<T>(a: seq<T>, b: seq<T>, x: T, y: T, c: seq<T>, d: seq<T>)
    ensures |a| + |b| < |a + (b + [x] + c) + d|
    ensures (a + (b + [x] + c) + d)[|a| + |b| := y] == a + (b + [y] + c) + d
  {
  }

  /** A new entry in a node changes that place of the list, and nothing of the shape. */
  lemma EntryRewritten(p: Path, t: Tree, e: Entry)
    requires t.N?
    ensures var i := |EntriesBefore(p)| + |Entries(t.left)|; var u := WithEntry(t, e);
      && i < |Entries(Plug(p, t))| && Entries(Plug(p, u)) == Entries(Plug(p, t))[i := e]
      && Nodes(Plug(p, u)) == Nodes(Plug(p, t)) && RedBlack(Plug(p, u)) == RedBlack(Plug(p, t))
  {
    var u := WithEntry(t, e);
    SameButEntry(t, e);
    PlugAlike(p, t, u);
    PlugInOrder(p, t);
    PlugInOrder(p, u);
    hide *;
    UpdatedMiddle(EntriesBefore(p), Entries(t.left), t.entry, e, Entries(t.right), EntriesAfter(p));
  }

  lemma HasNodes(t: Tree)
    requires t.N?
    ensures |Nodes(t)| > 0
  {
  }

  lemma SameLists(f: Focus, after: Tree)
    requires SameOrder(f, Focus(Top, after))
    ensures Nodes(Plug(f.p, f.t)) == Nodes(after) && Entries(Plug(f.p, f.t)) == Entries(after)
  {
  }

  lemma Removed(before: Tree, after: Tree, key: int, i: nat, j: nat)
    requires Ascending(Entries(before)) && Rank(Entries(before), key) == i
    requires i <= j <= i + 1 && j < |Nodes(before)| && (i == 0 ==> j == 0)
    requires i < |Entries(before)| == |Nodes(before)| && Entries(before)[i].key == key
    requires Entries(after) == Without(Entries(before), i) && Nodes(after) == Without(Nodes(before), j)
    ensures RemovedFrom(before, after, key, j) && Ascending(Entries(after))
  {
    hide Ascending, Contents, Rank, Nodes, Entries;
    ContentsRemoved(Entries(before), i);
  }

  lemma SpliceRemoves(f: Focus, after: Tree, key: int) returns (j: nat)
    requires f.t.N? && (f.t.left.E? || f.t.right.E?) && f.t.entry.key == key
    requires Ascending(Entries(Plug(f.p, f.t))) && Between(f.p, key)
    requires SameOrder(Focus(f.p, OnlyKid(f.t)), Focus(Top, after))
    ensures RemovedFrom(Plug(f.p, f.t), after, key, j) && Ascending(Entries(after))
    ensures Nodes(Plug(f.p, f.t))[j] == f.t.node
  {
    hide *;
    SameLists(Focus(f.p, OnlyKid(f.t)), after);
    j := |NodesBefore(f.p)| + |Nodes(f.t.left)|;
    DescentEnd(f.p, f.t, key);
    FocusPlace(f);
    SpliceInOrder(f.p, f.t);
    Removed(Plug(f.p, f.t), after, key, j, j);
  }

  lemma ReplaceRemoves(f: Focus, spine: Path, yt: Tree, after: Tree, key: int) returns (j: nat)
    requires f.t.N? && f.t.left.N? && f.t.entry.key == key
    requires yt.N? && yt.left.E? && Spine(spine, Left) && Plug(spine, yt) == f.t.right
    requires Ascending(Entries(Plug(f.p, f.t))) && Between(f.p, key)
    requires SameOrder(Focus(f.p, Replaced(f.t, spine, yt)), Focus(Top, after))
    ensures RemovedFrom(Plug(f.p, f.t), after, key, j) && Ascending(Entries(after))
    ensures Nodes(Plug(f.p, f.t))[j] == yt.node
  {
    hide *;
    HasNodes(f.t.left);
    SameLists(Focus(f.p, Replaced(f.t, spine, yt)), after);
    var i := |NodesBefore(f.p)| + |Nodes(f.t.left)|;
    j := i + 1;
    DescentEnd(f.p, f.t, key);
    FocusPlace(f);
    ReplaceInOrder(f.p, f.t, spine, yt);
    Removed(Plug(f.p, f.t), after, key, i, j);
  }

  function PaintKid(w: Tree, k: Side, c: Colour): Tree
    requires w.N?
  {
    Join(k, Recolour(Kid(w, k), c), w.node, w.colour, w.entry, Kid(w, Opposite(k)))
  }

  // ---------------------------------------------------------------------------------------------
  // The code

  class RbTree {
    const nil: Node
    var root: Node
    ghost var nodes: set<Node>
    ghost var shape: Tree

    ghost function Mem(): Memory
      reads this`nodes, nodes
    {
      map n <- nodes :: CellOf(n)
    }

    /** The heap holds tree `t` at the end of path `p`. */
    ghost predicate At(p: Path, t: Tree)
      reads this`root, this`nodes, nodes
    {
      Focused(Mem(), nil, root, p, t)
    }

    ghost predicate Valid()
      reads this, nodes
    {
      At(Top, shape) && RedBlack(shape) && Ascending(Entries(shape))
    }

    /** rbinit without preallocation. */
    constructor (nil: Node)
      requires nil.left == nil.right == nil && nil.colour == Black
      ensures Valid() && this.nil == nil && shape == E && nodes == {nil}
    {
      this.nil, root := nil, nil;
      nodes, shape := {nil}, E;
    }

    // -------------------------------------------------------------------------------------------
    // Looking around, and moving the focus

    lemma Look(p: Path, t: Tree)
      requires At(p, t)
      ensures nil in nodes && nil.colour == Black && nil.left == nil.right == nil
      ensures t.N? ==>
        && t.node in nodes && t.node != nil
        && CellOf(t.node) == Cell(Ptr(t.left, nil), Ptr(t.right, nil), UpPtr(p, nil), t.colour, t.entry)
      ensures p.Down? ==>
        && p.node in nodes && p.node != nil
        && CellOf(p.node) == MakeCell(p.side, Ptr(t, nil), Ptr(p.sibling, nil), UpPtr(p.up, nil), p.colour, p.entry)
        && (Ptr(t, nil) == Ptr(p.sibling, nil) ==> t.E? && p.sibling.E?)
      ensures root == Ptr(t, nil) <==> p.Top?
      ensures (t.E? <==> Ptr(t, nil) == nil) && (p.Top? <==> UpPtr(p, nil) == nil)
    {
      Neighbours(Mem(), nil, root, p, t);
    }

    /** The pointers around the focus, one by one. */
    lemma Around(p: Path, t: Tree)
      requires At(p, t)
      ensures nil in nodes && nil.colour == Black
      ensures t.E? ==> Ptr(t, nil) == nil
      ensures t.N? ==> Ptr(t, nil) == t.node && t.node in nodes && t.node != nil && t.node.up == UpPtr(p, nil)
      ensures t.N? ==> t.node.colour == t.colour && t.node.key == t.entry.key && t.node.data == t.entry.data
      ensures p.Top? ==> UpPtr(p, nil) == nil && root == Ptr(t, nil)
      ensures p.Down? ==> UpPtr(p, nil) == p.node && p.node in nodes && p.node != nil && root != Ptr(t, nil)
      ensures p.Down? ==> p.node.up == UpPtr(p.up, nil) && p.node.colour == p.colour && p.node.key == p.entry.key
      ensures p.Down? ==> KidOf(p.node, p.side) == Ptr(t, nil) && KidOf(p.node, Opposite(p.side)) == Ptr(p.sibling, nil)
      ensures p.Down? && t.N? ==> (p.node.left == t.node <==> p.side == Left)
      ensures p.Down? && t.N? ==> forall s :: KidOf(p.node, s) == t.node <==> p.side == s
    {
      Look(p, t);
    }

    // What proofs that hide all definitions need to know of them.

    lemma AboveIs(p: Path, t: Tree)
      requires p.Down?
      ensures Above(p, t) ==
        if p.side == Left then N(t, p.node, p.colour, p.entry, p.sibling)
        else N(p.sibling, p.node, p.colour, p.entry, t)
    {
    }

    lemma RecolourIs(t: Tree, c: Colour)
      ensures Recolour(t, c) == if t.E? then t else t.(colour := c)
    {
    }

    lemma MoveUp(p: Path, t: Tree)
      requires At(p, t) && p.Down?
      ensures At(p.up, Above(p, t))
    {
      FocusUp(Mem(), nil, root, p, t);
    }

    lemma MoveDown(p: Path, t: Tree, s: Side)
      requires At(p, t) && t.N?
      ensures At(Down(s, t.node, t.colour, t.entry, Kid(t, Opposite(s)), p), Kid(t, s))
    {
      FocusDown(Mem(), nil, root, p, t, s);
    }

    lemma MoveAcross(p: Path, t: Tree)
      requires At(p, t) && p.Down?
      ensures At(Across(p, t), p.sibling)
    {
      FocusAcross(Mem(), nil, root, p, t);
    }

    lemma {:induction false} MoveToTop(p: Path, t: Tree)
      requires At(p, t)
      ensures At(Top, Plug(p, t))
      decreases p
    {
      if p.Down? {
        MoveUp(p, t);
        MoveToTop(p.up, Above(p, t));
      }
    }

    // -------------------------------------------------------------------------------------------
    // Primitive steps on the heap

    // One assignment each, as a change of the memory map.

    method StoreLeft(n: Node, v: Node)
      requires n in nodes
      modifies n`left
      ensures n.left == v && Mem() == old(Mem())[n := old(Mem())[n].(left := v)]
    {
      n.left := v;
    }

    method StoreRight(n: Node, v: Node)
      requires n in nodes
      modifies n`right
      ensures n.right == v && Mem() == old(Mem())[n := old(Mem())[n].(right := v)]
    {
      n.right := v;
    }

    method StoreUp(n: Node, v: Node)
      requires n in nodes
      modifies n`up
      ensures n.up == v && Mem() == old(Mem())[n := old(Mem())[n].(up := v)]
    {
      n.up := v;
    }

    /** Makes the parent `up` of `from`, or the root pointer, point at `to` instead. */
    method ReplaceChild(up: Node, from: Node, to: Node)
      requires up in nodes
      modifies this`root, up`left, up`right
      ensures Mem() == Relink(old(Mem()), nil, up, from, to)
      ensures root == if up == nil then to else old(root)
    {
      if up == nil {
        root := to;
      } else {
        if from == up.left {
          StoreLeft(up, to);
        } else {
          StoreRight(up, to);
        }
      }
    }

    method StoreColour(n: Node, c: Colour)
      requires n in nodes
      modifies n`colour
      ensures n.colour == c && Mem() == old(Mem())[n := old(Mem())[n].(colour := c)]
    {
      n.colour := c;
    }

    lemma AtIs(p: Path, t: Tree)
      ensures At(p, t) <==> Focused(Mem(), nil, root, p, t)
      ensures At(p, t) ==> nil in nodes
    {
    }

    method Paint(n: Node, c: Colour, ghost p: Path, ghost t: Tree)
      requires At(p, t) && t.N? && t.node == n
      modifies n`colour
      ensures At(p, Recolour(t, c)) && nil.up == old(nil.up)
    {
      hide *;
      AtIs(p, t);
      Around(p, t);
      RecolourStep(Mem(), nil, root, p, t, c);
      StoreColour(n, c);
      AtIs(p, Recolour(t, c));
    }

    method PaintParent(n: Node, c: Colour, ghost p: Path, ghost t: Tree)
      requires At(p, t) && p.Down? && p.node == n
      modifies n`colour
      ensures At(p.(colour := c), t) && nil.up == old(nil.up)
    {
      hide At;
      MoveUp(p, t);
      Paint(n, c, p.up, Above(p, t));
      MoveDown(p.up, Above(p.(colour := c), t), p.side);
    }

    method PaintSibling(w: Node, c: Colour, ghost p: Path, ghost t: Tree)
      requires At(p, t) && p.Down? && p.sibling.N? && p.sibling.node == w
      modifies w`colour
      ensures At(p.(sibling := Recolour(p.sibling, c)), t) && nil.up == old(nil.up)
    {
      hide At;
      MoveAcross(p, t);
      Paint(w, c, Across(p, t), p.sibling);
      MoveAcross(Across(p, t), Recolour(p.sibling, c));
    }

    lemma MemAt(n: Node)
      requires n in nodes
      ensures n in Mem() && Mem()[n] == Cell(n.left, n.right, n.up, n.colour, Entry(n.key, n.data))
      ensures Mem().Keys == nodes
    {
    }

    /** The assignments of rb_left_rotate. */
    method LeftRotateLinks(x: Node)
      requires nil in nodes && x in nodes && x.right in nodes && x.right.left in nodes && x.up in nodes
      requires x != nil && x.right != nil && x != x.right && x.right.left != x && x.right.left != x.right
      requires x.up != x && x.up != x.right
      modifies this`root, nodes
      ensures Mem() == RotateMemory(old(Mem()), nil, x, Left)
      ensures root == if old(x.up) == nil then old(x.right) else old(root)
    {
      hide *;
      ghost var m, b := Mem(), x.right.left;
      var y := x.right;
      MemAt(x);
      MemAt(y);
      LeftRotationIs(m, nil, x);
      StoreRight(x, y.left);
      SetUpIs(Mem(), nil, b, x);
      if y.left != nil {
        StoreUp(y.left, x);
      }
      MemAt(x);
      StoreUp(y, x.up);
      MemAt(x);
      ReplaceChild(x.up, x, y);
      StoreLeft(y, x);
      StoreUp(x, y);

    }

    method LeftRotate(x: Node, ghost p: Path, ghost t: Tree)
      requires At(p, t) && CanRotate(t, Left) && t.node == x
      modifies this`root, nodes
      ensures At(p, Rotate(t, Left)) && nil.up == old(nil.up)
    {
      RotateStep(Mem(), nil, root, p, t, Left);
      RotationPieces(Mem(), nil, root, p, t, Left);
      hide Focused, Rotate, RotateMemory, Holds;
      LeftRotateLinks(x);
    }

    /** The assignments of rb_right_rotate. */
    method RightRotateLinks(y: Node)
      requires nil in nodes && y in nodes && y.left in nodes && y.left.right in nodes && y.up in nodes
      requires y != nil && y.left != nil && y != y.left && y.left.right != y && y.left.right != y.left
      requires y.up != y && y.up != y.left
      modifies this`root, nodes
      ensures Mem() == RotateMemory(old(Mem()), nil, y, Right)
      ensures root == if old(y.up) == nil then old(y.left) else old(root)
    {
      hide *;
      ghost var m, b := Mem(), y.left.right;
      var x := y.left;
      MemAt(y);
      MemAt(x);
      RightRotationIs(m, nil, y);
      StoreLeft(y, x.right);
      SetUpIs(Mem(), nil, b, y);
      if x.right != nil {
        StoreUp(x.right, y);
      }
      MemAt(y);
      StoreUp(x, y.up);
      MemAt(y);
      ReplaceChild(y.up, y, x);
      StoreRight(x, y);
      StoreUp(y, x);

    }

    method RightRotate(y: Node, ghost p: Path, ghost t: Tree)
      requires At(p, t) && CanRotate(t, Right) && t.node == y
      modifies this`root, nodes
      ensures At(p, Rotate(t, Right)) && nil.up == old(nil.up)
    {
      RotateStep(Mem(), nil, root, p, t, Right);
      RotationPieces(Mem(), nil, root, p, t, Right);
      hide Focused, Rotate, RotateMemory, Holds;
      RightRotateLinks(y);
    }

    method RotateTo(s: Side, n: Node, ghost p: Path, ghost t: Tree)
      requires At(p, t) && CanRotate(t, s) && t.node == n
      modifies this`root, nodes
      ensures At(p, Rotate(t, s)) && nil.up == old(nil.up)
    {
      hide At, Rotate;
      if s == Left {
        LeftRotate(n, p, t);
      } else {
        RightRotate(n, p, t);
      }
    }

    // -------------------------------------------------------------------------------------------
    // Insertion

    /** The pointers to the parent, the grandparent and the uncle of a red focus under a red parent. */
    lemma LookUncle(f: Focus)
      requires At(f.p, f.t) && InsertPending(f)
      ensures f.p.Down? && f.p.up.Down? && f.t.N?
      ensures f.t.node.up == f.p.node && f.p.node in nodes && f.p.node.up == f.p.up.node && f.p.up.node in nodes
      ensures f.t.node == KidOf(f.p.node, Opposite(f.p.up.side)) <==> f.p.side != f.p.up.side
      ensures var y := KidOf(f.p.up.node, Opposite(f.p.up.side));
        && y == Ptr(f.p.up.sibling, nil) && y in nodes && (y.colour == Red <==> IsRed(f.p.up.sibling))
        && (f.p.up.sibling.N? ==> y == f.p.up.sibling.node)
    {
      assert f.p.Down? && f.p.up.Down? && f.t.N?;
      hide At, InsertPending, RedFocus;
      var a := Above(f.p, f.t);
      Around(f.p, f.t);
      MoveUp(f.p, f.t);
      Around(f.p.up, a);
      MoveAcross(f.p.up, a);
      Around(Across(f.p.up, a), f.p.up.sibling);
    }

    /** The recolouring case of rb_traverse's fix-up loop. */
    method FlipColours(x: Node, y: Node, ghost f: Focus)
      requires At(f.p, f.t) && f.p.Down? && f.p.up.Down? && f.p.up.sibling.N?
      requires x.up == f.p.node && x.up.up == f.p.up.node && y == f.p.up.sibling.node
      requires x.up in nodes && x.up.up in nodes && y in nodes
      modifies nodes
      ensures At(RecolouredUncle(f).p, RecolouredUncle(f).t) && nil.up == old(nil.up)
    {
      hide At;
      var g := x.up.up;
      PaintParent(x.up, Black, f.p, f.t);
      ghost var p1 := f.p.(colour := Black);
      MoveUp(p1, f.t);
      ghost var a := Above(p1, f.t);
      PaintSibling(y, Black, f.p.up, a);
      ghost var p2 := f.p.up.(sibling := Recolour(f.p.up.sibling, Black));
      PaintParent(g, Red, p2, a);
      MoveUp(p2.(colour := Red), a);
    }

    /** The first rotation of the other case, for an inner grandchild; `x` moves to its parent. */
    method TurnOut(x: Node, s: Side, ghost f: Focus) returns (x': Node)
      requires At(f.p, f.t) && InsertPending(f) && f.p.side != f.p.up.side == s && x == f.t.node
      modifies this`root, nodes
      ensures At(TurnedOut(f).p, TurnedOut(f).t) && nil.up == old(nil.up) && x' == TurnedOut(f).t.node
    {
      Look(f.p, f.t);
      TurnedOutIsRotation(f);
      hide At, InsertPending;
      x' := x.up;
      MoveUp(f.p, f.t);
      RotateTo(s, x', f.p.up, Above(f.p, f.t));
      ghost var g := TurnedOut(f);
      MoveDown(f.p.up, Above(g.p, g.t), s);
    }

    /** The parts of the repainted focus, and what the rotation makes of it. */
    lemma RepaintedIs(f: Focus)
      requires f.p.Down? && f.p.up.Down? && f.p.side == f.p.up.side
      ensures var r := Repainted(f);
        && r.p.Down? && r.p.up == f.p.up.(colour := Red) && r.t == f.t && r.p.up.up == f.p.up.up
        && Above(r.p, r.t) == Above(f.p.(colour := Black), f.t)
        && var top, low := Above(r.p.up, Above(r.p, r.t)), Above(Lifted(f).p, f.t);
        && top.N? && top.node == f.p.up.node && CanRotate(top, Opposite(f.p.side))
        && low == Rotate(top, Opposite(f.p.side)) && low.N? && Kid(low, f.p.side) == f.t
        && Down(f.p.side, low.node, low.colour, low.entry, Kid(low, Opposite(f.p.side)), f.p.up.up) == Lifted(f).p
        && Lifted(f).t == f.t
    {
      LiftedIsRotation(f);
      hide Rotate;
    }

    /** The rest of that case: two recolourings and the rotation at the grandparent. */
    method Lift(x: Node, s: Side, ghost f: Focus)
      requires At(f.p, f.t) && InsertPending(f) && f.p.side == f.p.up.side == s && x == f.t.node
      modifies this`root, nodes
      ensures At(Lifted(f).p, Lifted(f).t) && nil.up == old(nil.up)
    {
      hide *;
      LookUncle(f);
      MoveUp(f.p, f.t);
      ghost var r := Repainted(f);
      RepaintedIs(f);
      var parent, grandparent := x.up, x.up.up;
      PaintParent(parent, Black, f.p, f.t);
      MoveUp(f.p.(colour := Black), f.t);
      PaintParent(grandparent, Red, f.p.up, Above(r.p, r.t));
      MoveUp(r.p.up, Above(r.p, r.t));
      RotateTo(Opposite(s), grandparent, r.p.up.up, Above(r.p.up, Above(r.p, r.t)));
      MoveDown(r.p.up.up, Above(Lifted(f).p, f.t), s);
    }

    lemma RecolouredFocus(f: Focus)
      requires f.p.Down? && f.p.up.Down? && IsRed(f.p.up.sibling)
      ensures RecolouredUncle(f).t.N? && RecolouredUncle(f).t.node == f.p.up.node && f.p.up.sibling.N?
    {
    }

    lemma LiftAfter(f: Focus, g: Focus)
      requires InsertPending(g) && (g == f || SameOrder(f, g)) && SameOrder(g, Lifted(g))
      ensures g.p.Down? && g.p.up.Down? && SameOrder(f, Lifted(g)) && Lifted(g).t == g.t
    {
    }

    /** One round of the fix-up loop of rb_traverse, on side `s` of the grandparent. */
    method InsertFixRound(x: Node, s: Side, ghost f: Focus) returns (x': Node, ghost f': Focus)
      requires At(f.p, f.t) && InsertPending(f) && x == f.t.node && s == f.p.up.side
      modifies this`root, nodes
      ensures At(f'.p, f'.t) && RedFocus(f') && x' == f'.t.node && SameOrder(f, f') && Depth(f'.p) < Depth(f.p)
      ensures nil.up == old(nil.up)
    {
      hide *;
      LookUncle(f);
      var g := x.up.up;
      var y := KidOf(g, Opposite(s));
      if y.colour == Red {
        RecolouredUncleKeeps(f);
        RecolouredFocus(f);
        FlipColours(x, y, f);
        f' := RecolouredUncle(f);
        x' := g;
      } else {
        x', f' := x, f;
        if x == KidOf(x.up, Opposite(s)) {
          TurnedOutKeeps(f);
          x' := TurnOut(x, s, f);
          f' := TurnedOut(f);
        }
        LiftedKeeps(f');
        Lift(x', s, f');
        LiftAfter(f, f');
        f' := Lifted(f');
      }
    }

    lemma SameOrderTransitive(f: Focus, g: Focus, h: Focus)
      requires SameOrder(f, g) && SameOrder(g, h)
      ensures SameOrder(f, h)
    {
    }

    lemma PendingPath(f: Focus)
      requires RedFocus(f) && RedTop(f.p)
      ensures InsertPending(f) && f.p.Down? && f.p.up.Down?
    {
    }

    lemma LookUp(f: Focus)
      requires At(f.p, f.t) && RedFocus(f)
      ensures f.t.N? && f.t.node in nodes && f.t.node.up in nodes
      ensures f.t.node != root <==> f.p.Down?
      ensures f.p.Down? ==> f.t.node.up.colour == f.p.colour
    {
      Look(f.p, f.t);
    }

    lemma LookFarUp(f: Focus)
      requires At(f.p, f.t) && f.t.N? && f.p.Down? && f.p.up.Down?
      ensures f.t.node.up in nodes && f.t.node.up.up in nodes
      ensures f.t.node.up == f.t.node.up.up.left <==> f.p.up.side == Left
    {
      Look(f.p, f.t);
      MoveUp(f.p, f.t);
      Look(f.p.up, Above(f.p, f.t));
    }

    /** The fix-up loop of rb_traverse. */
    method InsertFix(z: Node, ghost f0: Focus) returns (ghost f: Focus)
      requires At(f0.p, f0.t) && RedFocus(f0) && z == f0.t.node
      modifies this`root, nodes
      ensures At(f.p, f.t) && RedFocus(f) && !RedTop(f.p) && SameOrder(f0, f)
    {
      var x := z;
      f := f0;
      LookUp(f);
      while x != root && x.up.colour == Red
        invariant At(f.p, f.t) && RedFocus(f) && x == f.t.node && SameOrder(f0, f)
        invariant (x != root <==> f.p.Down?) && x in nodes && x.up in nodes
        invariant f.p.Down? ==> x.up.colour == f.p.colour
        decreases Depth(f.p)
      {
        PendingPath(f);
        LookFarUp(f);
        hide At, RedFocus, InsertPending, SameOrder;
        ghost var g := f;
        if x.up == x.up.up.left {
          x, f := InsertFixRound(x, Left, f);
        } else {
          x, f := InsertFixRound(x, Right, f);
        }
        SameOrderTransitive(f0, g, f);
        LookUp(f);
      }
    }

    lemma RedRoot(f: Focus)
      requires RedFocus(f)
      ensures Plug(f.p, f.t).N? && SameOrder(f, Focus(Top, Recolour(Plug(f.p, f.t), Black)))
    {
      if f.p.Down? {
        PlugIsNode(f.p, f.t);
      }
      hide Plug, Fits, Balanced;
    }

    /** The last line of rb_traverse: the root is painted black. */
    method BlackenRoot(ghost f: Focus)
      requires At(f.p, f.t) && RedFocus(f) && !RedTop(f.p)
      modifies this`shape, nodes
      ensures At(Top, shape) && RedBlack(shape)
      ensures SameOrder(f, Focus(Top, shape))
    {
      hide *;
      InsertDone(f);
      MoveToTop(f.p, f.t);
      shape := Plug(f.p, f.t);
      RedRoot(f);
      Around(Top, shape);
      Paint(root, Black, Top, shape);
      shape := Recolour(shape, Black);
    }

    lemma DownTo(f: Focus, s: Side, key: int) returns (g: Focus)
      requires At(f.p, f.t) && f.t.N? && Ascending(Entries(Plug(f.p, f.t))) && Between(f.p, key)
      requires if s == Left then key < f.t.entry.key else key > f.t.entry.key
      ensures g == Focus(Into(f.p, f.t, s), Kid(f.t, s))
      ensures At(g.p, g.t) && Plug(g.p, g.t) == Plug(f.p, f.t) && Between(g.p, key)
      ensures g.t.E? <==> Ptr(g.t, nil) == nil
    {
      g := Focus(Into(f.p, f.t, s), Kid(f.t, s));
      GoDown(f.p, f.t, s, key);
      MoveDown(f.p, f.t, s);
      Look(g.p, g.t);
    }

    /** The walk down in rb_traverse and rb_lookup: `x` is the node with the key or the sentinel, and
        `y` the last node looked at. */
    method Descend(key: int) returns (found: bool, x: Node, y: Node, ghost f: Focus)
      requires At(Top, shape) && Ascending(Entries(shape))
      ensures At(f.p, f.t) && Plug(f.p, f.t) == shape && Between(f.p, key)
      ensures x == Ptr(f.t, nil) && (found <==> f.t.N?) && (found ==> f.t.entry.key == key && y == x)
      ensures !found ==> y == UpPtr(f.p, nil)
    {
      found, x, y := false, root, nil;
      f := Focus(Top, shape);
      Look(Top, shape);
      while x != nil && !found
        invariant At(f.p, f.t) && Plug(f.p, f.t) == shape && Between(f.p, key)
        invariant x == Ptr(f.t, nil) && (x == nil <==> f.t.E?)
        invariant if found then x != nil && f.t.entry.key == key && y == x else y == UpPtr(f.p, nil)
        decreases f.t, !found
      {
        Look(f.p, f.t);
        hide At;
        y := x;
        if key < x.key {
          x := x.left;
          f := DownTo(f, Left, key);
        } else if key > x.key {
          x := x.right;
          f := DownTo(f, Right, key);
        } else {
          found := true;
        }
      }
    }

    lemma MemKeys()
      ensures Mem().Keys == nodes
    {
    }

    /** The memory with a new leaf. */
    twostate lemma MemMore(new z: Node)
      requires z !in old(nodes) && nodes == old(nodes) + {z}
      requires forall n <- old(nodes) :: CellOf(n) == old(CellOf(n))
      ensures Mem() == old(Mem())[z := CellOf(z)]
      ensures CellOf(z) == Cell(z.left, z.right, z.up, z.colour, Entry(z.key, z.data))
    {
    }

    /** rb_traverse's new node: allocated, filled in, and hung below `y` or made the root. */
    method Attach(y: Node, key: int, ghost p: Path) returns (z: Node)
      requires At(p, E) && y == UpPtr(p, nil) && (p.Down? ==> (p.side == Left <==> key < p.entry.key))
      modifies this`root, this`nodes, y`left, y`right
      ensures fresh(z) && nodes == old(nodes) + {z} && nil.up == old(nil.up)
      ensures At(p, N(E, z, Red, Entry(key, 0), E))
    {
      hide *;
      ghost var m := Mem();
      AtIs(p, E);
      Around(p, E);
      MemKeys();
      z := new Node.Leaf(nil, y, key);
      AttachStep(m, nil, root, p, z, key);
      nodes := nodes + {z};
      MemMore(z);
      LeafCellIs(nil, y, key);
      ghost var leaf := N(E, z, Red, Entry(key, 0), E);
      if y == nil {
        root := z;
      } else {
        WithKidIs(m[y], p.side, z);
        if z.key < y.key {
          StoreLeft(y, z);
        } else {
          StoreRight(y, z);
        }
      }
      AtIs(p, leaf);
    }

    method Rebalance(z: Node, ghost leaf: Focus)
      requires At(leaf.p, leaf.t) && RedFocus(leaf) && z == leaf.t.node
      modifies this`root, this`shape, nodes
      ensures At(Top, shape) && RedBlack(shape) && SameOrder(leaf, Focus(Top, shape))
    {
      hide At, RedFocus, SameOrder, RedBlack;
      ghost var f := InsertFix(z, leaf);
      BlackenRoot(f);
      SameOrderTransitive(leaf, f, Focus(Top, shape));
    }

    lemma LeafReady(p: Path, z: Node, e: Entry)
      requires RedBlack(Plug(p, E))
      ensures RedFocus(Focus(p, N(E, z, Red, e, E)))
    {
      UnplugBalanced(p, E);
    }

    lemma NodeEntry(i: nat)
      requires At(Top, shape) && i < |Nodes(shape)|
      ensures |Nodes(shape)| == |Entries(shape)| && Nodes(shape)[i] in nodes && Nodes(shape)[i] != nil
      ensures Nodes(shape)[i].key == Entries(shape)[i].key && Nodes(shape)[i].data == Entries(shape)[i].data
    {
      FocusedInMemory(Mem(), nil, root, Top, shape);
      NodeHoldsEntry(Mem(), nil, shape, nil, i);
    }

    lemma InsertedByOrder(p: Path, z: Node, key: int)
      requires Ascending(Entries(Plug(p, E))) && Between(p, key) && At(Top, shape)
      requires SameOrder(Focus(p, N(E, z, Red, Entry(key, 0), E)), Focus(Top, shape))
      ensures Ascending(Entries(shape)) && InsertedIn(Plug(p, E), shape, z, key)
      ensures z.key == key && z.data == 0
    {
      LeafPlace(p, z, Entry(key, 0));
      NodeEntry(Rank(Entries(Plug(p, E)), key));
    }

    lemma SideByKey(p: Path, key: int)
      requires Between(p, key)
      ensures p.Down? ==> (p.side == Left <==> key < p.entry.key) && (p.side == Right <==> key > p.entry.key)
    {
      if p.Down? {
        if p.side == Left {
          assert EntriesAfter(p)[0] == p.entry;
        } else {
          assert EntriesBefore(p)[|EntriesBefore(p)| - 1] == p.entry;
        }
      }
    }

    lemma ValidParts()
      requires Valid()
      ensures At(Top, shape) && RedBlack(shape) && Ascending(Entries(shape))
    {
    }

    lemma AllValid()
      requires At(Top, shape) && RedBlack(shape) && Ascending(Entries(shape))
      ensures Valid()
    {
    }

    /** The rest of rb_traverse once the walk has ended without finding the key. */
    method Insert(y: Node, key: int, ghost p: Path) returns (z: Node)
      requires Valid() && At(p, E) && Plug(p, E) == shape && Between(p, key) && y == UpPtr(p, nil)
      modifies this`root, this`nodes, this`shape, nodes
      ensures Valid() && nodes == old(nodes) + {z} && fresh(z) && z.key == key && z.data == 0
      ensures InsertedIn(old(shape), shape, z, key)
    {
      hide *;
      ValidParts();
      SideByKey(p, key);
      Around(p, E);
      z := Attach(y, key, p);
      LeafReady(p, z, Entry(key, 0));
      ghost var leaf := Focus(p, N(E, z, Red, Entry(key, 0), E));
      Rebalance(z, leaf);
      InsertedByOrder(p, z, key);
      AllValid();
    }

    /** rbsearch: finds the key, or inserts it with no data. */
    method Search(key: int) returns (z: Node)
      requires Valid()
      modifies this`root, this`nodes, this`shape, nodes
      ensures Valid() && z.key == key && z in nodes && z != nil
      ensures if Has(old(Entries(shape)), key) then shape == old(shape) && nodes == old(nodes)
        else fresh(z) && z.data == 0 && nodes == old(nodes) + {z} && InsertedIn(old(shape), shape, z, key)
    {
      hide *;
      ValidParts();
      var found, x, y;
      ghost var f;
      found, x, y, f := Descend(key);
      DescentEnd(f.p, f.t, key);
      Around(f.p, f.t);
      if found {
        return x;
      }
      z := Insert(y, key, f.p);
    }

    /** Storing through the address that rbsearch returns. */
    method WriteData(z: Node, d: nat, ghost p: Path, ghost t: Tree)
      requires At(p, t) && t.N? && t.node == z
      modifies z`data
      ensures At(p, WithEntry(t, Entry(t.entry.key, d))) && nil.up == old(nil.up)
    {
      ghost var m := Mem();
      ghost var e := Entry(t.entry.key, d);
      Look(p, t);
      EntryStep(m, nil, root, p, t, e);
      hide Focused;
      z.data := d;
      assert Mem() == m[z := m[z].(entry := e)];
    }

    /** The tree's nodes are those of its shape, and the sentinel. */
    lemma NodesOfShape()
      requires At(Top, shape)
      ensures nodes == Occupied(shape) + {nil}
    {
      MemKeys();
      assert OccupiedPath(Top) == {};
      hide Occupied, Holds, HoldsPath;
    }

    lemma PlaceOf(z: Node) returns (i: nat)
      requires At(Top, shape) && z in nodes && z != nil
      ensures i < |Nodes(shape)| && Nodes(shape)[i] == z
    {
      hide *;
      NodesOfShape();
      OccupiedListed(shape, z);
      i :| 0 <= i < |Nodes(shape)| && Nodes(shape)[i] == z;
    }

    /** The i-th node of the tree, as a focus. */
    lemma FocusOn(i: nat) returns (f: Focus)
      requires At(Top, shape) && i < |Nodes(shape)|
      ensures At(f.p, f.t) && Plug(f.p, f.t) == shape && f.t.N? && f.t.node == Nodes(shape)[i]
      ensures i == |NodesBefore(f.p)| + |Nodes(f.t.left)|
    {
      f := Focus(Top, shape);
      var k: nat := i;
      while k != |Nodes(f.t.left)|
        invariant At(f.p, f.t) && Plug(f.p, f.t) == shape && f.t.N? && k < |Nodes(f.t)|
        invariant i == |NodesBefore(f.p)| + k
        decreases f.t
      {
        assert |Nodes(f.t)| == |Nodes(f.t.left)| + 1 + |Nodes(f.t.right)|;
        var s := if k < |Nodes(f.t.left)| then Left else Right;
        assert Nodes(E) == [];
        MoveDown(f.p, f.t, s);
        k := if s == Left then k else k - |Nodes(f.t.left)| - 1;
        f := Focus(Into(f.p, f.t, s), Kid(f.t, s));
      }
      FocusPlace(f);
    }

    /** The focus on the i-th node, as a place in the list of entries. */
    lemma FocusAt(i: nat) returns (f: Focus)
      requires At(Top, shape) && i < |Nodes(shape)|
      ensures At(f.p, f.t) && Plug(f.p, f.t) == shape && f.t.N? && f.t.node == Nodes(shape)[i]
      ensures i == |EntriesBefore(f.p)| + |Entries(f.t.left)| < |Entries(shape)| && Entries(shape)[i] == f.t.entry
    {
      hide *;
      f := FocusOn(i);
      FocusPlace(f);
      PathLengths(f.p);
      InOrderLengths(f.t.left);
    }

    /** The place of the node, and what new data there makes of the tree. */
    lemma RewritePlan(z: Node, d: nat, i: nat) returns (f: Focus)
      requires Valid() && i < |Nodes(shape)| && Nodes(shape)[i] == z
      ensures At(f.p, f.t) && f.t.N? && f.t.node == z && f.t.entry.key == z.key
      ensures var after := Plug(f.p, WithEntry(f.t, Entry(z.key, d)));
        && RedBlack(after) && Ascending(Entries(after)) && Nodes(after) == Nodes(shape)
        && Contents(Entries(after)) == Contents(Entries(shape))[z.key := d]
    {
      hide *;
      ValidParts();
      f := FocusAt(i);
      NodeEntry(i);
      EntryRewritten(f.p, f.t, Entry(z.key, d));
      ContentsUpdated(Entries(shape), i, d);
    }

    /** The data of the i-th node replaced. */
    method Rewrite(z: Node, d: nat, ghost i: nat)
      requires Valid() && i < |Nodes(shape)| && Nodes(shape)[i] == z
      modifies z`data, this`shape
      ensures Valid() && Nodes(shape) == old(Nodes(shape))
      ensures Contents(Entries(shape)) == old(Contents(Entries(shape)))[old(z.key) := d]
    {
      hide *;
      ghost var f := RewritePlan(z, d, i);
      ghost var e := Entry(f.t.entry.key, d);
      WriteData(z, d, f.p, f.t);
      MoveToTop(f.p, WithEntry(f.t, e));
      shape := Plug(f.p, WithEntry(f.t, e));
      AllValid();
    }

    lemma ContentsAfter(before: Tree, after: Tree, z: Node, key: int)
      requires after == before || InsertedIn(before, after, z, key)
      ensures var was, now := Contents(Entries(before)), Contents(Entries(after)); now == was || now == was[key := 0]
    {
    }

    /** What callers do with rbsearch: find or insert the key, and give it data. */
    method Store(key: int, d: nat)
      requires Valid()
      modifies this`root, this`nodes, this`shape, nodes
      ensures Valid() && Contents(Entries(shape)) == old(Contents(Entries(shape)))[key := d]
      ensures Has(old(Entries(shape)), key) ==> nodes == old(nodes) && Nodes(shape) == old(Nodes(shape))
      ensures old(nodes) <= nodes && fresh(nodes - old(nodes))
    {
      hide *;
      ghost var before := Contents(Entries(shape));
      var z := Search(key);
      ValidParts();
      ghost var i := PlaceOf(z);
      assert Contents(Entries(shape))[key := d] == before[key := d] by {
        ContentsAfter(old(shape), shape, z, key);
      }
      Rewrite(z, d, i);
    }

    // -------------------------------------------------------------------------------------------
    // Deletion: the fix-up loop

    /** A child of the sibling is painted. */
    method PaintNephew(n: Node, k: Side, c: Colour, ghost p: Path, ghost t: Tree)
      requires At(p, t) && p.Down? && p.sibling.N? && Kid(p.sibling, k).N? && Kid(p.sibling, k).node == n
      modifies n`colour
      ensures At(p.(sibling := PaintKid(p.sibling, k, c)), t) && nil.up == old(nil.up)
    {
      hide At;
      ghost var w := p.sibling;
      MoveAcross(p, t);
      MoveDown(Across(p, t), w, k);
      Paint(n, c, Into(Across(p, t), w, k), Kid(w, k));
      MoveUp(Into(Across(p, t), w, k), Recolour(Kid(w, k), c));
      MoveAcross(Across(p, t), PaintKid(w, k, c));
    }

    /** The first case of a round of rb_delete_fix: a red sibling. */
    method TakeBlackSibling(parent: Node, w: Node, s: Side, ghost f: Focus)
      requires At(f.p, f.t) && f.p.Down? && f.p.side == s && f.p.sibling.N?
      requires parent == f.p.node && w == f.p.sibling.node && parent in nodes && w in nodes
      modifies this`root, nodes
      ensures At(BlackSibling(f).p, f.t) && nil.up == old(nil.up)
    {
      BlackSiblingIsRotation(f);
      hide At;
      PaintSibling(w, Black, f.p, f.t);
      ghost var p1 := f.p.(sibling := Recolour(f.p.sibling, Black));
      PaintParent(parent, Red, p1, f.t);
      ghost var p2 := p1.(colour := Red);
      MoveUp(p2, f.t);
      RotateTo(s, parent, f.p.up, Above(p2, f.t));
      ghost var b := BlackSibling(f);
      MoveDown(f.p.up, Above(b.p.up, Above(b.p, f.t)), s);
      MoveDown(b.p.up, Above(b.p, f.t), s);
    }

    /** The third case: the outer child of the sibling is black, the inner one red. */
    method TurnOuterRed(w: Node, inner: Node, s: Side, ghost f: Focus)
      requires At(f.p, f.t) && f.p.Down? && f.p.side == s && f.p.sibling.N? && Kid(f.p.sibling, s).N?
      requires w == f.p.sibling.node && inner == Kid(f.p.sibling, s).node && w in nodes && inner in nodes
      modifies this`root, nodes
      ensures At(OuterRed(f).p, f.t) && nil.up == old(nil.up)
    {
      hide At;
      PaintNephew(inner, s, Black, f.p, f.t);
      ghost var p1 := f.p.(sibling := PaintKid(f.p.sibling, s, Black));
      PaintSibling(w, Red, p1, f.t);
      ghost var p2 := p1.(sibling := Recolour(p1.sibling, Red));
      MoveAcross(p2, f.t);
      RotateTo(Opposite(s), w, Across(p2, f.t), p2.sibling);
      MoveAcross(Across(p2, f.t), OuterRed(f).p.sibling);
    }

    /** The last case: the outer child of the sibling is red, and the shortage ends. */
    method FillShortage(parent: Node, w: Node, outer: Node, s: Side, ghost f: Focus)
      requires At(f.p, f.t) && f.p.Down? && f.p.side == s && f.p.sibling.N? && Kid(f.p.sibling, Opposite(s)).N?
      requires parent == f.p.node && w == f.p.sibling.node && outer == Kid(f.p.sibling, Opposite(s)).node
      requires parent in nodes && w in nodes && outer in nodes && parent.colour == f.p.colour
      modifies this`root, nodes
      ensures At(Filled(f).p, Filled(f).t) && nil.up == old(nil.up)
    {
      FilledIsRotation(f);
      hide At;
      PaintSibling(w, parent.colour, f.p, f.t);
      ghost var p1 := f.p.(sibling := Recolour(f.p.sibling, f.p.colour));
      PaintParent(parent, Black, p1, f.t);
      ghost var p2 := p1.(colour := Black);
      PaintNephew(outer, Opposite(s), Black, p2, f.t);
      ghost var p3 := p2.(sibling := PaintKid(p2.sibling, Opposite(s), Black));
      MoveUp(p3, f.t);
      RotateTo(s, parent, f.p.up, Above(p3, f.t));
    }

    /** What the pointers around the sibling say. */
    lemma LookSibling(f: Focus)
      requires At(f.p, f.t) && f.p.Down? && f.p.sibling.N?
      ensures f.p.node in nodes && f.p.sibling.node in nodes && f.p.node.colour == f.p.colour
      ensures KidOf(f.p.node, Opposite(f.p.side)) == f.p.sibling.node && KidOf(f.p.node, f.p.side) == Ptr(f.t, nil)
      ensures f.p.node.left == Ptr(f.t, nil) <==> f.p.side == Left
      ensures var w := f.p.sibling;
        && w.node.colour == w.colour && w.node.left == Ptr(w.left, nil) && w.node.right == Ptr(w.right, nil)
        && w.node.left in nodes && w.node.right in nodes
        && (w.node.left.colour == Red <==> IsRed(w.left)) && (w.node.right.colour == Red <==> IsRed(w.right))
      ensures f.p.node.up == UpPtr(f.p.up, nil)
    {
      var q := Across(f.p, f.t);
      Look(f.p, f.t);
      MoveAcross(f.p, f.t);
      Look(q, f.p.sibling);
      MoveDown(q, f.p.sibling, Left);
      Look(Into(q, f.p.sibling, Left), f.p.sibling.left);
      MoveDown(q, f.p.sibling, Right);
      Look(Into(q, f.p.sibling, Right), f.p.sibling.right);
    }

    lemma FilledAfter(f: Focus, g: Focus)
      requires g == f || SameOrder(f, g)
      requires DeletePending(g) && g.p.sibling.N? && !IsRed(g.p.sibling)
      requires IsRed(Kid(g.p.sibling, Opposite(g.p.side)))
      ensures var f' := Focus(Top, Plug(Filled(g).p, Filled(g).t));
        Short(f') && SameOrder(f, f')
    {
      FilledKeeps(g);
    }

    /** A round of rb_delete_fix once the sibling is black. */
    method DeleteFixBlack(x: Node, w: Node, s: Side, ghost f: Focus) returns (x': Node, ghost f': Focus)
      requires At(f.p, f.t) && DeletePending(f) && f.p.side == s && x == Ptr(f.t, nil) && x.up == UpPtr(f.p, nil)
      requires x in nodes && f.p.sibling.N? && w == f.p.sibling.node && !IsRed(f.p.sibling)
      modifies this`root, nodes
      ensures At(f'.p, f'.t) && Short(f') && SameOrder(f, f')
      ensures x' == Ptr(f'.t, nil) && (f'.p.Top? || f' == RedSibling(f))
      ensures f'.p.Down? ==> x'.up == UpPtr(f'.p, nil)
    {
      var o := Opposite(s);
      LookSibling(f);
      hide At, Fits, SameOrder, Short;
      var parent, inner, outer := x.up, KidOf(w, s), KidOf(w, o);
      if inner.colour == Black && outer.colour == Black {
        RedSiblingKeeps(f);
        PaintSibling(w, Red, f.p, f.t);
        MoveUp(f.p.(sibling := Recolour(f.p.sibling, Red)), f.t);
        x', f' := parent, RedSibling(f);
        Look(f'.p, f'.t);
      } else {
        ghost var g := f;
        var w', outer' := w, outer;
        if outer.colour == Black {
          OuterRedKeeps(f);
          TurnOuterRed(w, inner, s, f);
          g := OuterRed(f);
          LookSibling(g);
          w' := KidOf(parent, o);
          outer' := KidOf(w', o);
        }
        FilledAfter(f, g);
        FillShortage(parent, w', outer', s, g);
        MoveToTop(Filled(g).p, Filled(g).t);
        f' := Focus(Top, Plug(Filled(g).p, Filled(g).t));
        Look(Top, f'.t);
        x' := root;
      }
    }

    /** One round of rb_delete_fix, on side `s` of the parent. */
    method DeleteFixRound(x: Node, s: Side, ghost f: Focus) returns (x': Node, ghost f': Focus)
      requires At(f.p, f.t) && DeletePending(f) && f.p.side == s && x == Ptr(f.t, nil) && x.up == UpPtr(f.p, nil)
      requires x in nodes
      modifies this`root, nodes
      ensures At(f'.p, f'.t) && Short(f') && SameOrder(f, f')
      ensures x' == Ptr(f'.t, nil) && (f'.p.Top? || IsRed(f'.t) || Depth(f'.p) < Depth(f.p))
      ensures f'.p.Down? ==> x'.up == UpPtr(f'.p, nil)
    {
      var o := Opposite(s);
      SiblingExists(f);
      LookSibling(f);
      ghost var g := f;
      var parent := x.up;
      var w := KidOf(parent, o);
      if w.colour == Red {
        BlackSiblingKeeps(f);
        hide At, Short;
        TakeBlackSibling(parent, w, s, f);
        g := BlackSibling(f);
        LookSibling(g);
        Look(g.p, g.t);
        w := KidOf(parent, o);
        x', f' := DeleteFixBlack(x, w, s, g);
        SameOrderTransitive(f, g, f');
      } else {
        hide At, Short;
        x', f' := DeleteFixBlack(x, w, s, g);
      }
    }

    lemma LookShort(f: Focus)
      requires At(f.p, f.t) && Short(f)
      ensures Ptr(f.t, nil) != root <==> f.p.Down?
      ensures Ptr(f.t, nil) in nodes && (Ptr(f.t, nil).colour == Red <==> IsRed(f.t))
      ensures f.t.N? ==> f.t.node.up == UpPtr(f.p, nil)
      ensures f.p.Down? ==> f.p.node in nodes && (f.p.node.left == Ptr(f.t, nil) <==> f.p.side == Left)
      ensures f.p.Down? ==> UpPtr(f.p, nil) == f.p.node
    {
      Look(f.p, f.t);
      if f.p.Down? && !IsRed(f.t) {
        SiblingExists(f);
        LookSibling(f);
      } else if f.p.Down? {
        MoveAcross(f.p, f.t);
        Look(Across(f.p, f.t), f.p.sibling);
      }
    }

    lemma IsPending(f: Focus)
      requires Short(f) && f.p.Down? && !IsRed(f.t)
      ensures DeletePending(f)
    {
    }

    lemma SameAsItself(f: Focus)
      ensures SameOrder(f, f)
    {
    }

    method DeleteFixLoop(x0: Node, ghost f0: Focus) returns (x: Node, ghost f: Focus)
      requires At(f0.p, f0.t) && Short(f0) && x0 == Ptr(f0.t, nil) && x0.up == UpPtr(f0.p, nil)
      modifies this`root, nodes
      ensures At(f.p, f.t) && Short(f) && SameOrder(f0, f) && x == Ptr(f.t, nil)
      ensures f.p.Top? || IsRed(f.t)
    {
      hide *;
      x, f := x0, f0;
      LookShort(f);
      SameAsItself(f);
      while x != root && x.colour == Black
        invariant At(f.p, f.t) && Short(f) && SameOrder(f0, f) && x == Ptr(f.t, nil)
        invariant x != root && x.colour == Black ==> x.up == UpPtr(f.p, nil)
        invariant (x != root <==> f.p.Down?) && x in nodes && (x.colour == Red <==> IsRed(f.t))
        invariant f.p.Down? ==> f.p.node in nodes && UpPtr(f.p, nil) == f.p.node
        invariant f.p.Down? ==> (f.p.node.left == x <==> f.p.side == Left)
        decreases if f.p.Top? || IsRed(f.t) then 0 else 1 + Depth(f.p)
      {
        IsPending(f);
        ghost var g := f;
        if x == x.up.left {
          x, f := DeleteFixRound(x, Left, f);
        } else {
          x, f := DeleteFixRound(x, Right, f);
        }
        SameOrderTransitive(f0, g, f);
        LookShort(f);
      }
    }

    /** The sentinel painted black, as it is already. */
    method BlackenNil(ghost p: Path, ghost t: Tree)
      requires At(p, t)
      modifies nil`colour
      ensures At(p, t)
    {
      hide Focused;
      Look(p, t);
      ghost var m := Mem();
      nil.colour := Black;
      assert Mem() == m;
    }

    lemma EndAtTop(f0: Focus, f: Focus, g: Focus)
      requires SameOrder(f0, f) && SameOrder(f, g)
      ensures SameOrder(f0, Focus(Top, Plug(g.p, g.t)))
    {
    }

    /** The last line of rb_delete_fix: the focus is painted black. */
    method DeleteEnd(x: Node, ghost f0: Focus, ghost f: Focus)
      requires At(f.p, f.t) && Short(f) && SameOrder(f0, f) && x == Ptr(f.t, nil)
      requires f.p.Top? || IsRed(f.t)
      modifies this`shape, nodes
      ensures At(Top, shape) && RedBlack(shape) && SameOrder(f0, Focus(Top, shape))
    {
      hide *;
      DeleteDone(f);
      Around(f.p, f.t);
      RecolourIs(f.t, Black);
      ghost var g := Focus(f.p, Recolour(f.t, Black));
      if x == nil {
        BlackenNil(f.p, f.t);
      } else {
        Paint(x, Black, f.p, f.t);
      }
      MoveToTop(g.p, g.t);
      EndAtTop(f0, f, g);
      shape := Plug(g.p, g.t);
    }

    /** rb_delete_fix: `x` is the root of a subtree that is one black node short, or the sentinel with
        its parent pointer set. */
    method DeleteFix(x0: Node, ghost f0: Focus)
      requires At(f0.p, f0.t) && Short(f0) && x0 == Ptr(f0.t, nil) && x0.up == UpPtr(f0.p, nil)
      modifies this`root, this`shape, nodes
      ensures At(Top, shape) && RedBlack(shape) && SameOrder(f0, Focus(Top, shape))
    {
      hide At, SameOrder, RedBlack;
      ghost var f;
      var x;
      x, f := DeleteFixLoop(x0, f0);
      DeleteEnd(x, f0, f);
    }

    // -------------------------------------------------------------------------------------------
    // Deletion: the node that goes

    lemma LookDown(p: Path, t: Tree)
      requires At(p, t) && t.N?
      ensures t.node in nodes && t.node != nil && t.node.left in nodes && t.node.right in nodes
      ensures t.node.left == Ptr(t.left, nil) && t.node.right == Ptr(t.right, nil) && t.node.up == UpPtr(p, nil)
      ensures (t.node.left == nil <==> t.left.E?) && (t.node.right == nil <==> t.right.E?)
      ensures t.node.key == t.entry.key && t.node.data == t.entry.data
    {
      Look(p, t);
      MoveDown(p, t, Left);
      Look(Into(p, t, Left), t.left);
      MoveDown(p, t, Right);
      Look(Into(p, t, Right), t.right);
    }

    lemma LookSide(p: Path, t: Tree, s: Side)
      requires At(p, t) && t.N?
      ensures (KidOf(t.node, s) == nil <==> Kid(t, s).E?) && KidOf(t.node, s) == Ptr(Kid(t, s), nil)
    {
      LookDown(p, t);
      hide At;
    }

    lemma PtrIs(t: Tree)
      ensures t.N? ==> Ptr(t, nil) == t.node
    {
    }

    lemma SpineStarts(q: Path, t: Tree, s: Side)
      ensures Spine(Top, s) && Plug(Top, t) == t && Append(Top, q) == q
    {
    }

    /** One step further down the spine. */
    lemma SpineMore(spine: Path, q: Path, t: Tree, s: Side)
      requires t.N? && Spine(spine, s)
      ensures var more := Into(spine, t, s);
        && Spine(more, s) && Plug(more, Kid(t, s)) == Plug(spine, t)
        && Append(more, q) == Down(s, t.node, t.colour, t.entry, Kid(t, Opposite(s)), Append(spine, q))
        && (Kid(t, s) < t)
    {
    }

    /** Keep going to side `s` until there is no child on that side. */
    method Outermost(n: Node, s: Side, ghost q: Path, ghost t: Tree)
      returns (y: Node, ghost spine: Path, ghost yt: Tree)
      requires At(q, t) && t.N? && n == t.node
      ensures Spine(spine, s) && Plug(spine, yt) == t && yt.N? && Kid(yt, s).E? && y == yt.node
      ensures At(Append(spine, q), yt)
    {
      hide *;
      y, spine, yt := n, Top, t;
      LookSide(q, t, s);
      SpineStarts(q, t, s);
      while KidOf(y, s) != nil
        invariant Spine(spine, s) && Plug(spine, yt) == t && yt.N? && y == yt.node
        invariant At(Append(spine, q), yt)
        invariant (KidOf(y, s) == nil <==> Kid(yt, s).E?) && KidOf(y, s) == Ptr(Kid(yt, s), nil)
        decreases yt
      {
        MoveDown(Append(spine, q), yt, s);
        SpineMore(spine, q, yt, s);
        y := KidOf(y, s);
        spine, yt := Into(spine, yt, s), Kid(yt, s);
        PtrIs(yt);
        LookSide(Append(spine, q), yt, s);
      }
    }

    function OnlyChild(y: Node): Node
      reads y
    {
      if y.left != nil then y.left else y.right
    }

    /** The memory of fewer nodes. */
    twostate lemma MemLess(y: Node)
      requires nodes == old(nodes) - {y}
      requires forall n <- nodes :: CellOf(n) == old(CellOf(n))
      ensures Mem() == old(Mem()) - {y}
    {
    }

    method SpliceLinks(y: Node, x: Node)
      requires x in nodes && y in nodes && y.up in nodes && x != y && nil in nodes
      modifies this`root, x`up, y.up`left, y.up`right
      ensures Mem() == SpliceMemory(old(Mem()), nil, y, x)
      ensures root == (if y.up == nil then x else old(root)) && x.up == y.up
    {
      hide Relink;
      StoreUp(x, y.up);
      ReplaceChild(y.up, y, x);
    }

    /** rb_delete's relinking: `y` has at most one child `x`, which takes its place. */
    method Splice(y: Node, x: Node, ghost p: Path, ghost t: Tree)
      requires At(p, t) && t.N? && t.node == y && (t.left.E? || t.right.E?) && x == Ptr(OnlyKid(t), nil)
      modifies this`root, this`nodes, nodes
      ensures At(p, OnlyKid(t)) && nodes == old(nodes) - {y} && x.up == UpPtr(p, nil) && x in nodes
      ensures y.key == old(y.key) && y.data == old(y.data) && y.colour == old(y.colour)
    {
      hide *;
      Around(p, t);
      AtIs(p, t);
      SpliceStep(Mem(), nil, root, p, t);
      MemAt(y);
      SpliceLinks(y, x);
      label Linked:
      nodes := nodes - {y};
      MemLess@Linked(y);
      AtIs(p, OnlyKid(t));
    }

    /** What the pointers of a node with at most one child say. */
    lemma LookOnlyKid(p: Path, t: Tree)
      requires At(p, t) && t.N? && (t.left.E? || t.right.E?)
      ensures OnlyChild(t.node) == Ptr(OnlyKid(t), nil) && OnlyKid(t) == (if t.left.N? then t.left else t.right)
    {
      LookDown(p, t);
      hide At;
    }

    /** rb_delete's copy of a key and its data from a node that is no longer in the tree. */
    method CopyEntry(z: Node, y: Node, ghost p: Path, ghost t: Tree)
      requires At(p, t) && t.N? && t.node == z && y !in nodes
      modifies z`key, z`data
      ensures At(p, t.(entry := Entry(y.key, y.data))) && nil.up == old(nil.up)
    {
      ghost var m := Mem();
      ghost var e := Entry(y.key, y.data);
      Look(p, t);
      EntryStep(m, nil, root, p, t, e);
      hide Focused;
      z.key := y.key;
      z.data := y.data;
      assert Mem() == m[z := m[z].(entry := e)];
    }

    /** The end of rb_delete: the fix-up, if a black node went. */
    method FinishDelete(x: Node, wasBlack: bool, ghost g: Focus)
      requires At(g.p, g.t) && x == Ptr(g.t, nil) && x.up == UpPtr(g.p, nil)
      requires if wasBlack then Short(g) else g.p.Down? && RedBlack(g.t) && Fits(g.p, BlackHeight(g.t))
      modifies this`root, this`shape, nodes
      ensures At(Top, shape) && RedBlack(shape) && SameOrder(g, Focus(Top, shape))
    {
      if wasBlack {
        DeleteFix(x, g);
      } else {
        PlugBalanced(g.p, g.t);
        MoveToTop(g.p, g.t);
        shape := Plug(g.p, g.t);
      }
    }

    /** rb_delete of a node that has at most one child. */
    method DeleteNode(z: Node, ghost f: Focus)
      requires At(f.p, f.t) && RedBlack(Plug(f.p, f.t)) && f.t.N? && z == f.t.node && (f.t.left.E? || f.t.right.E?)
      modifies this`root, this`shape, this`nodes, nodes
      ensures At(Top, shape) && RedBlack(shape) && nodes == old(nodes) - {z}
      ensures SameOrder(Focus(f.p, OnlyKid(f.t)), Focus(Top, shape))
    {
      hide *;
      Around(f.p, f.t);
      LookOnlyKid(f.p, f.t);
      SpliceBalance(f.p, f.t);
      var x := OnlyChild(z);
      Splice(z, x, f.p, f.t);
      FinishDelete(x, z.colour == Black, Focus(f.p, OnlyKid(f.t)));
    }

    lemma MoveOverSpine(spine: Path, q: Path, t: Tree)
      ensures At(Append(spine, q), t) <==> At(q, Plug(spine, t))
    {
      AppendFocused(Mem(), nil, root, spine, q, t);
    }

    /** The focus at which the shortage, if any, is after a successor has been taken out. */
    ghost function AfterReplace(f: Focus, spine: Path, yt: Tree): Focus
      requires f.t.N? && yt.N?
    {
      Focus(Append(spine, Into(f.p, f.t.(entry := yt.entry), Right)), yt.right)
    }

    lemma ReplaceBalance(f: Focus, spine: Path, yt: Tree)
      requires f.t.N? && yt.N? && yt.left.E? && RedBlack(Plug(f.p, f.t)) && Plug(spine, yt) == f.t.right
      ensures var g := AfterReplace(f, spine, yt);
        && Plug(g.p, g.t) == Plug(f.p, Replaced(f.t, spine, yt))
        && UpPtr(g.p, nil) == UpPtr(Append(spine, Into(f.p, f.t, Right)), nil)
        && (if yt.colour == Black then Short(g) else g.p.Down? && RedBlack(g.t) && Fits(g.p, BlackHeight(g.t)))
    {
      var q := Into(f.p, f.t, Right);
      AppendPlug(spine, q, yt);
      var q' := Into(f.p, f.t.(entry := yt.entry), Right);
      assert q' == q.(entry := yt.entry);
      AppendPlug(spine, q', yt.right);
      SpliceBalance(Append(spine, q), yt);
      FitsAppend(spine, q, yt.entry, BlackHeight(yt.right));
      FitsAppend(spine, q, yt.entry, BlackHeight(yt.right) + 1);
    }

    lemma SamePlug(f: Focus, g: Focus, h: Focus)
      requires SameOrder(f, h) && Plug(f.p, f.t) == Plug(g.p, g.t)
      ensures SameOrder(g, h)
    {
    }

    lemma TakenFocus(f: Focus, spine: Path, yt: Tree)
      requires f.t.N? && yt.N? && At(Append(spine, Into(f.p, f.t, Right)), yt.right)
      ensures Into(f.p, f.t, Right).Down?
      ensures var a := Above(Into(f.p, f.t, Right), Plug(spine, yt.right));
        && At(f.p, a) && a.N? && a.node == f.t.node && a.node in nodes
        && a.(entry := yt.entry) == Replaced(f.t, spine, yt)
    {
      MoveOverSpine(spine, Into(f.p, f.t, Right), yt.right);
      MoveUp(Into(f.p, f.t, Right), Plug(spine, yt.right));
      hide At, Plug;
      Around(f.p, Above(Into(f.p, f.t, Right), Plug(spine, yt.right)));
    }

    lemma RefocusReplaced(f: Focus, spine: Path, yt: Tree)
      requires f.t.N? && yt.N? && At(f.p, Replaced(f.t, spine, yt))
      ensures At(AfterReplace(f, spine, yt).p, yt.right) && AfterReplace(f, spine, yt).t == yt.right
    {
      MoveDown(f.p, Replaced(f.t, spine, yt), Right);
      MoveOverSpine(spine, Into(f.p, f.t.(entry := yt.entry), Right), yt.right);
    }

    method MoveEntryUp(z: Node, y: Node, ghost f: Focus, ghost spine: Path, ghost yt: Tree)
      returns (x: Node, wasBlack: bool)
      requires f.t.N? && z == f.t.node && yt.N? && yt.left.E? && y == yt.node
      requires At(Append(spine, Into(f.p, f.t, Right)), yt)
      modifies this`root, this`nodes, nodes
      ensures At(AfterReplace(f, spine, yt).p, yt.right) && AfterReplace(f, spine, yt).t == yt.right
      ensures x == Ptr(yt.right, nil) && x.up == UpPtr(Append(spine, Into(f.p, f.t, Right)), nil)
      ensures nodes == old(nodes) - {y} && (wasBlack <==> yt.colour == Black)
    {
      hide *;
      ghost var q := Into(f.p, f.t, Right);
      Around(Append(spine, q), yt);
      LookOnlyKid(Append(spine, q), yt);
      x := OnlyChild(y);
      wasBlack := y.colour == Black;
      Splice(y, x, Append(spine, q), yt);
      TakenFocus(f, spine, yt);
      CopyEntry(z, y, f.p, Above(q, Plug(spine, yt.right)));
      RefocusReplaced(f, spine, yt);
    }

    /** The successor of `z` is spliced out and its key and data move to `z`. */
    method TakeSuccessor(z: Node, ghost f: Focus)
      returns (x: Node, wasBlack: bool, ghost spine: Path, ghost yt: Tree)
      requires At(f.p, f.t) && f.t.N? && z == f.t.node && f.t.right.N?
      modifies this`root, this`nodes, nodes
      ensures Spine(spine, Left) && Plug(spine, yt) == f.t.right && yt.N? && yt.left.E?
      ensures var g := AfterReplace(f, spine, yt);
        At(g.p, g.t) && x == Ptr(g.t, nil) && x.up == UpPtr(Append(spine, Into(f.p, f.t, Right)), nil)
      ensures nodes == old(nodes) - {yt.node} && (wasBlack <==> yt.colour == Black)
    {
      LookDown(f.p, f.t);
      MoveDown(f.p, f.t, Right);
      hide At, Spine, AfterReplace;
      ghost var q := Into(f.p, f.t, Right);
      var y;
      y, spine, yt := Outermost(z.right, Left, q, f.t.right);
      x, wasBlack := MoveEntryUp(z, y, f, spine, yt);
    }

    /** rb_delete of a node with two children: its successor is taken out instead. */
    method DeleteSuccessor(z: Node, ghost f: Focus) returns (ghost spine: Path, ghost yt: Tree)
      requires At(f.p, f.t) && RedBlack(Plug(f.p, f.t)) && f.t.N? && z == f.t.node && f.t.right.N?
      modifies this`root, this`shape, this`nodes, nodes
      ensures Spine(spine, Left) && Plug(spine, yt) == f.t.right && yt.N? && yt.left.E?
      ensures At(Top, shape) && RedBlack(shape) && nodes == old(nodes) - {yt.node}
      ensures SameOrder(Focus(f.p, Replaced(f.t, spine, yt)), Focus(Top, shape))
    {
      hide At, RedBlack, Short, Fits, Spine, SameOrder;
      var x, wasBlack;
      x, wasBlack, spine, yt := TakeSuccessor(z, f);
      ReplaceBalance(f, spine, yt);
      FinishDelete(x, wasBlack, AfterReplace(f, spine, yt));
      SamePlug(AfterReplace(f, spine, yt), Focus(f.p, Replaced(f.t, spine, yt)), Focus(Top, shape));
    }

    /** rbfind: the node with the key, or the sentinel. */
    method Find(key: int) returns (x: Node)
      requires Valid()
      ensures x != nil <==> Has(Entries(shape), key)
      ensures x != nil ==> x in nodes && var i := Rank(Entries(shape), key);
        && i < |Nodes(shape)| == |Entries(shape)| && x == Nodes(shape)[i]
        && x.key == key && x.data == Entries(shape)[i].data
    {
      hide *;
      ValidParts();
      var found, y;
      ghost var f;
      found, x, y, f := Descend(key);
      DescentEnd(f.p, f.t, key);
      Around(f.p, f.t);
      if found {
        FocusPlace(f);
        NodeEntry(Rank(Entries(shape), key));
      }
    }

    // -------------------------------------------------------------------------------------------
    // Neighbours and cursors

    ghost function NodeAt(i: int): Node
      reads this`shape
    {
      if 0 <= i < |Nodes(shape)| then Nodes(shape)[i] else nil
    }

    /** A cursor at place `i`: what its node holds, or that it has come to the end. */
    lemma CursorAt(i: nat)
      requires Valid() && i <= |Nodes(shape)|
      ensures |Nodes(shape)| == |Entries(shape)| && Ascending(Entries(shape))
      ensures NodeAt(i) == nil <==> i == |Nodes(shape)|
      ensures i < |Nodes(shape)| ==> NodeAt(i) == Nodes(shape)[i] && NodeAt(i).key == Entries(shape)[i].key
    {
      InOrderLengths(shape);
      if i < |Nodes(shape)| {
        NodeEntry(i);
      }
    }

    /** The second half of rb_successor and rb_predecessor: climb while coming from side `s`. */
    method Climb(x0: Node, s: Side, ghost f: Focus) returns (y: Node)
      requires At(f.p, f.t) && f.t.N? && x0 == f.t.node
      ensures y == Nearest(Beyond(f.p, s), s, nil)
    {
      hide *;
      var x := x0;
      Around(f.p, f.t);
      y := x.up;
      ghost var g := f;
      while y != nil && x == KidOf(y, s)
        invariant At(g.p, g.t) && g.t.N? && x == g.t.node && y == UpPtr(g.p, nil)
        invariant y != nil <==> g.p.Down?
        invariant y != nil ==> y == g.p.node && y.up == UpPtr(g.p.up, nil) && (x == KidOf(y, s) <==> g.p.side == s)
        invariant Beyond(g.p, s) == Beyond(f.p, s)
        decreases Depth(g.p)
      {
        MoveUp(g.p, g.t);
        AboveIs(g.p, g.t);
        BeyondUp(g.p, s);
        g := Focus(g.p.up, Above(g.p, g.t));
        Around(g.p, g.t);
        x := y;
        y := y.up;
      }
      BeyondEnd(g.p, s);
    }

    lemma NodeAtIs(i: int)
      ensures NodeAt(i) == if 0 <= i < |Nodes(shape)| then Nodes(shape)[i] else nil
    {
    }

    lemma NearestIs(ns: seq<Node>, s: Side)
      requires ns != []
      ensures Nearest(ns, s, nil) == ns[if Opposite(s) == Left then 0 else |ns| - 1]
    {
    }

    /** rb_successor for side Right, rb_predecessor for side Left: the neighbour of the i-th node. */
    method Neighbour(x: Node, s: Side, ghost f: Focus, ghost i: nat) returns (y: Node)
      requires At(f.p, f.t) && Plug(f.p, f.t) == shape && f.t.N? && x == f.t.node
      requires i == |NodesBefore(f.p)| + |Nodes(f.t.left)|
      ensures y == NodeAt(if s == Right then i + 1 else i - 1)
    {
      hide *;
      LookSide(f.p, f.t, s);
      NeighbourPlace(f, s, nil);
      NodeAtIs(if s == Right then i + 1 else i - 1);
      if KidOf(x, s) != nil {
        MoveDown(f.p, f.t, s);
        ghost var spine, yt;
        PtrIs(Kid(f.t, s));
        ghost var q := Down(s, f.t.node, f.t.colour, f.t.entry, Kid(f.t, Opposite(s)), f.p);
        y, spine, yt := Outermost(KidOf(x, s), Opposite(s), q, Kid(f.t, s));
        SpineEnd(spine, Opposite(s), yt);
        NearestIs(Nodes(Kid(f.t, s)), s);
      } else {
        y := Climb(x, s, f);
      }
    }

    /** rb_successor and rb_predecessor, for a node known by its place. */
    method Successor(x: Node, ghost i: nat) returns (y: Node)
      requires Valid() && i < |Nodes(shape)| && x == Nodes(shape)[i]
      ensures y == NodeAt(i + 1)
    {
      ghost var f := FocusOn(i);
      y := Neighbour(x, Right, f, i);
    }

    method Predecessor(x: Node, ghost i: nat) returns (y: Node)
      requires Valid() && i < |Nodes(shape)| && x == Nodes(shape)[i]
      ensures y == NodeAt(i - 1)
    {
      ghost var f := FocusOn(i);
      y := Neighbour(x, Left, f, i);
    }

    /** The first or the last node, or the sentinel if the tree is empty. */
    method Edge(s: Side) returns (y: Node)
      requires Valid()
      ensures y == NodeAt(if s == Left then 0 else |Nodes(shape)| - 1)
    {
      Look(Top, shape);
      y := root;
      if root != nil {
        ghost var spine, yt;
        y, spine, yt := Outermost(root, s, Top, shape);
        SpineEnd(spine, s, yt);
      }
    }

    lemma PlaceIs(mode: Mode, key: int)
      ensures var s := Entries(shape);
        Place(s, mode, key) ==
          if mode == First then 0 else if mode == Last then |Nodes(shape)| - 1
          else PlaceFrom(mode, Has(s, key), Rank(s, key))
    {
      InOrderLengths(shape);
    }

    /** The end of rblookup: which node to return, from where the walk ended and the last comparison. */
    method Select(mode: Mode, found: bool, x: Node, y: Node, cmp: int, ghost i: nat, ghost j: nat) returns (r: Node)
      requires Valid() && mode != First && mode != Last
      requires if found then i < |Nodes(shape)| && x == Nodes(shape)[i]
        else if y == nil then i == 0 && |Nodes(shape)| == 0 && cmp == 0
        else j < |Nodes(shape)| && y == Nodes(shape)[j] && cmp != 0 && i == if cmp > 0 then j + 1 else j
      ensures r == NodeAt(PlaceFrom(mode, found, i))
    {
      hide At, RedBlack, Ascending, Nodes;
      if found && mode in {Equal, GreaterEq, LessEq} {
        return x;
      }
      if !found && mode in {Equal, Next, Prev} {
        return nil;
      }
      if mode == GreaterEq || (!found && mode == Greater) {
        r := y;
        if cmp > 0 {
          r := Successor(y, j);
        }
        return;
      }
      if mode == LessEq || (!found && mode == Less) {
        r := y;
        if cmp < 0 {
          r := Predecessor(y, j);
        }
        return;
      }
      if mode == Next || mode == Greater {
        r := Successor(x, i);
      } else {
        r := Predecessor(x, i);
      }
    }

    /** The place of the node above an empty place. */
    lemma ParentPlace(p: Path) returns (j: nat)
      requires p.Down? && Plug(p, E) == shape
      ensures |Nodes(shape)| == |Entries(shape)| && j < |Nodes(shape)| && Nodes(shape)[j] == p.node
      ensures j == |EntriesBefore(p)| + (if p.side == Left then 0 else -1)
    {
      var g := Focus(p.up, Above(p, E));
      FocusPlace(g);
      PathLengths(p);
      j := |EntriesBefore(g.p)| + |Entries(g.t.left)|;
    }

    lemma EmptyShape()
      ensures Plug(Top, E) == E && Nodes(E) == []
    {
    }

    /** The place of the last node a descent looked at: the key's own, or a neighbour of its rank. */
    lemma LastVisited(f: Focus) returns (j: nat)
      requires At(f.p, f.t) && Plug(f.p, f.t) == shape
      ensures |Nodes(shape)| == |Entries(shape)|
      ensures f.t.N? ==>
        && j == |EntriesBefore(f.p)| + |Entries(f.t.left)| < |Nodes(shape)| && Nodes(shape)[j] == f.t.node
        && f.t.node.key == f.t.entry.key
      ensures f.t.E? && f.p.Down? ==>
        && j < |Nodes(shape)| && Nodes(shape)[j] == f.p.node && f.p.node.key == f.p.entry.key
        && j == |EntriesBefore(f.p)| + (if f.p.side == Left then 0 else -1)
      ensures f.t.E? && f.p.Top? ==> |Nodes(shape)| == 0
    {
      hide *;
      InOrderLengths(shape);
      Around(f.p, f.t);
      j := 0;
      if f.t.N? {
        FocusPlace(f);
        j := |EntriesBefore(f.p)| + |Entries(f.t.left)|;
      } else if f.p.Down? {
        j := ParentPlace(f.p);
      } else {
        EmptyShape();
      }
    }

    /** rblookup: the node that `mode` asks for relative to the key. */
    method Lookup(mode: Mode, key: int) returns (r: Node)
      requires Valid()
      ensures r == NodeAt(Place(Entries(shape), mode, key))
    {
      hide *;
      PlaceIs(mode, key);
      if mode == First || mode == Last {
        r := Edge(if mode == First then Left else Right);
        return;
      }
      ValidParts();
      var found, x, y;
      ghost var f;
      found, x, y, f := Descend(key);
      DescentEnd(f.p, f.t, key);
      ghost var j := LastVisited(f);
      SideByKey(f.p, key);
      Around(f.p, f.t);
      var cmp := if y == nil then 0 else key - y.key;
      r := Select(mode, found, x, y, cmp, Rank(Entries(shape), key), j);
    }

    /** rbdelete: takes the key out of the tree, if it is there. `j` is the place in order of the node
        that is freed, which need not be the node that held the key. */
    method Delete(key: int) returns (ghost j: nat)
      requires Valid()
      modifies this`root, this`nodes, this`shape, nodes
      ensures Valid()
      ensures if Has(old(Entries(shape)), key)
        then RemovedFrom(old(shape), shape, key, j) && nodes == old(nodes) - {old(Nodes(shape))[j]}
        else shape == old(shape) && nodes == old(nodes)
    {
      hide *;
      ValidParts();
      var found, x, y;
      ghost var f;
      found, x, y, f := Descend(key);
      DescentEnd(f.p, f.t, key);
      Around(f.p, f.t);
      j := 0;
      if x == nil {
        return;
      }
      LookDown(f.p, f.t);
      if x.left == nil || x.right == nil {
        DeleteNode(x, f);
        j := SpliceRemoves(f, shape, key);
      } else {
        ghost var spine, yt := DeleteSuccessor(x, f);
        j := ReplaceRemoves(f, spine, yt, shape, key);
      }
      AllValid();
    }
  }

  // ---------------------------------------------------------------------------------------------
  // Several trees

  /** Two trees of a program: they share the sentinel, as all trees do, and no other node. */
  ghost predicate Apart(a: RbTree, b: RbTree)
    reads a, b
  {
    a != b && a.nil == b.nil && a.nodes * b.nodes == {a.nil}
  }

  /** Whatever has been done to tree `a`, tree `b` is as it was when its memory was `m`, although
      deleting from `a` writes the sentinel. */
  lemma OtherTreeStays(a: RbTree, b: RbTree, m: Memory)
    requires Focused(m, b.nil, b.root, Top, b.shape) && RedBlack(b.shape) && Ascending(Entries(b.shape))
    requires a.Valid() && a.nil == b.nil && m.Keys == b.nodes
    requires forall n <- b.nodes :: n != b.nil ==> CellOf(n) == m[n]
    ensures b.Valid()
  {
    a.Look(Top, a.shape);
    hide Focused;
    SentinelFrame(m, b.Mem(), b.nil, b.root, Top, b.shape);
  }

  /** What a valid tree's memory is before the other tree is changed. */
  lemma Remembered(a: RbTree, b: RbTree) returns (m: Memory)
    requires a.Valid() && b.Valid() && Apart(a, b)
    ensures Focused(m, b.nil, b.root, Top, b.shape) && RedBlack(b.shape) && Ascending(Entries(b.shape))
    ensures m.Keys == b.nodes && forall n <- b.nodes :: CellOf(n) == m[n]
    ensures a != b && a.nil == b.nil && a.nodes * b.nodes == {a.nil}
    ensures forall n <- b.nodes :: n != b.nil ==> n !in a.nodes
  {
    hide Focused;
    m := b.Mem();
    assert forall n <- b.nodes :: n in a.nodes ==> n in a.nodes * b.nodes;
  }

  /** New nodes belong to neither tree before, so the trees stay apart. */
  lemma StillApart(a: RbTree, b: RbTree, was: set<Node>)
    requires a != b && a.nil == b.nil && was * b.nodes == {a.nil} && a.Valid()
    requires forall n <- a.nodes :: n in was || n !in b.nodes
    ensures Apart(a, b)
  {
    a.Look(Top, a.shape);
    assert a.nil in was * b.nodes;
  }

  /** rbdelete in one of two trees. */
  method DeleteBeside(a: RbTree, b: RbTree, key: int) returns (ghost j: nat)
    requires a.Valid() && b.Valid() && Apart(a, b)
    modifies a`root, a`nodes, a`shape, a.nodes
    ensures a.Valid() && b.Valid() && Apart(a, b) && b.shape == old(b.shape) && b.nodes == old(b.nodes)
    ensures if Has(old(Entries(a.shape)), key) then RemovedFrom(old(a.shape), a.shape, key, j)
      else a.shape == old(a.shape)
  {
    hide *;
    ghost var m := Remembered(a, b);
    j := a.Delete(key);
    OtherTreeStays(a, b, m);
    StillApart(a, b, old(a.nodes));
  }

  /** rbsearch and a store in one of two trees. */
  method StoreBeside(a: RbTree, b: RbTree, key: int, d: nat)
    requires a.Valid() && b.Valid() && Apart(a, b)
    modifies a`root, a`nodes, a`shape, a.nodes
    ensures a.Valid() && b.Valid() && Apart(a, b) && b.shape == old(b.shape) && b.nodes == old(b.nodes)
    ensures Contents(Entries(a.shape)) == old(Contents(Entries(a.shape)))[key := d]
  {
    hide *;
    ghost var m := Remembered(a, b);
    a.Store(key, d);
    OtherTreeStays(a, b, m);
    StillApart(a, b, old(a.nodes));
  }
}
