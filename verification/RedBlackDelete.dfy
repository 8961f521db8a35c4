/** What rb_delete does to the focused tree before its fix-up loop: a node is spliced out, and if it
    is the successor of the node that was asked for, its key and data move there. */
module RedBlackDelete {
  import opened RedBlackShape
  import opened RedBlackMemory
  import opened RedBlackFixup
  import opened RedBlackOrder

  /** The path `spine`, continued upwards by `q`. */
  function Append(spine: Path, q: Path): Path {
    if spine.Top? then q else spine.(up := Append(spine.up, q))
  }

  /** A path that only ever goes to side `s`. */
  predicate Spine(spine: Path, s: Side) {
    spine.Down? ==> spine.side == s && Spine(spine.up, s)
  }

  lemma {:induction false} AppendPlug(spine: Path, q: Path, t: Tree)
    ensures Plug(Append(spine, q), t) == Plug(q, Plug(spine, t))
    decreases spine
  {
    if spine.Down? {
      AppendPlug(spine.up, q, Above(spine, t));
    }
  }

  lemma {:induction false} AppendFocused(m: Memory, nil: Node, root: Node, spine: Path, q: Path, t: Tree)
    ensures Focused(m, nil, root, Append(spine, q), t) <==> Focused(m, nil, root, q, Plug(spine, t))
    decreases spine
  {
    if spine.Down? {
      FocusUp(m, nil, root, Append(spine, q), t);
      AppendFocused(m, nil, root, spine.up, q, Above(spine, t));
    }
  }

  /** Nothing lies beyond the end of a one-sided path on that side. */
  lemma {:induction false} SpineInOrder(spine: Path, s: Side)
    requires Spine(spine, s)
    ensures s == Left ==> NodesBefore(spine) == [] && EntriesBefore(spine) == []
    ensures s == Right ==> NodesAfter(spine) == [] && EntriesAfter(spine) == []
  {
    if spine.Down? {
      SpineInOrder(spine.up, s);
    }
  }

  /** The end of a one-sided path is the first, or the last, node in order. */
  lemma SpineEnd(spine: Path, s: Side, t: Tree)
    requires Spine(spine, s) && t.N? && Kid(t, s).E?
    ensures var all := Nodes(Plug(spine, t)); |all| > 0 && t.node == all[if s == Left then 0 else |all| - 1]
  {
    PlugInOrder(spine, t);
    SpineInOrder(spine, s);
    assert Nodes(t) == Nodes(t.left) + [t.node] + Nodes(t.right) && Nodes(Kid(t, s)) == [];
  }

  /** Entries play no part in the balance rules. */
  lemma {:induction false} FitsAppend(spine: Path, q: Path, e: Entry, h: nat)
    requires q.Down?
    ensures Fits(Append(spine, q.(entry := e)), h) == Fits(Append(spine, q), h)
    ensures RedTop(Append(spine, q.(entry := e))) == RedTop(Append(spine, q))
    decreases spine
  {
    if spine.Down? {
      FitsAppend(spine.up, q, e, h + Weight(spine.colour));
    }
  }

  /** After a splice the tree is either balanced, or one black node short at the splice. */
  lemma SpliceBalance(p: Path, t: Tree)
    requires t.N? && (t.left.E? || t.right.E?) && RedBlack(Plug(p, t))
    ensures t.colour == Black ==> Short(Focus(p, OnlyKid(t)))
    ensures t.colour == Red ==>
      p.Down? && RedBlack(OnlyKid(t)) && Fits(p, BlackHeight(OnlyKid(t)))
  {
    UnplugBalanced(p, t);
  }

  /** Lists without one element. */
  function Without<T>(s: seq<T>, i: nat): (r: seq<T>)
    requires i < |s|
    ensures |r| == |s| - 1
  {
    s[..i] + s[i + 1..]
  }

  lemma WithoutMiddle<T>(a: seq<T>, x: T, b: seq<T>)
    ensures Without(a + [x] + b, |a|) == a + b
  {
  }

  lemma SpliceList<T>(a: seq<T>, l: seq<T>, x: T, r: seq<T>, b: seq<T>, k: seq<T>)
    requires (l == [] && k == r) || (r == [] && k == l)
    ensures var whole := a + (l + [x] + r) + b; var i := |a| + |l|;
      i < |whole| && whole[i] == x && a + k + b == Without(whole, i)
  {
    Regroup(a, l, x, r, b);
    assert a + k + b == (a + l) + (r + b);
    hide Without;
    WithoutMiddle(a + l, x, r + b);
  }

  lemma KidLists(t: Tree)
    requires t.N? && (t.left.E? || t.right.E?)
    ensures (Nodes(t.left) == [] && Entries(t.left) == [] && OnlyKid(t) == t.right)
      || (Nodes(t.right) == [] && Entries(t.right) == [] && OnlyKid(t) == t.left)
  {
  }

  lemma SpliceNodes(p: Path, t: Tree)
    requires t.N? && (t.left.E? || t.right.E?)
    ensures var i := |NodesBefore(p)| + |Nodes(t.left)|; var whole := Plug(p, t);
      && i < |Nodes(whole)| && Nodes(whole)[i] == t.node && Nodes(Plug(p, OnlyKid(t))) == Without(Nodes(whole), i)
  {
    hide *;
    NodeLists(t);
    KidLists(t);
    PlugInOrder(p, t);
    PlugInOrder(p, OnlyKid(t));
    SpliceList(NodesBefore(p), Nodes(t.left), t.node, Nodes(t.right), NodesAfter(p), Nodes(OnlyKid(t)));
  }

  lemma SpliceEntries(p: Path, t: Tree)
    requires t.N? && (t.left.E? || t.right.E?)
    ensures var i := |EntriesBefore(p)| + |Entries(t.left)|; var whole := Plug(p, t);
      && i < |Entries(whole)| && Entries(whole)[i] == t.entry
      && Entries(Plug(p, OnlyKid(t))) == Without(Entries(whole), i)
  {
    hide *;
    NodeLists(t);
    KidLists(t);
    PlugInOrder(p, t);
    PlugInOrder(p, OnlyKid(t));
    SpliceList(EntriesBefore(p), Entries(t.left), t.entry, Entries(t.right), EntriesAfter(p), Entries(OnlyKid(t)));
  }

  /** Splicing out the focused node removes it and its entry from the lists. */
  lemma SpliceInOrder(p: Path, t: Tree)
    requires t.N? && (t.left.E? || t.right.E?)
    ensures var i := |NodesBefore(p)| + |Nodes(t.left)|; var whole := Plug(p, t);
      && i < |Nodes(whole)| && i < |Entries(whole)|
      && Nodes(whole)[i] == t.node && Entries(whole)[i] == t.entry
      && Nodes(Plug(p, OnlyKid(t))) == Without(Nodes(whole), i)
      && Entries(Plug(p, OnlyKid(t))) == Without(Entries(whole), i)
  {
    hide *;
    PathLengths(p);
    InOrderLengths(t.left);
    SpliceNodes(p, t);
    SpliceEntries(p, t);
  }

  /** The node `t` whose right subtree's first node is `y`, at the end of `spine`: `y` comes out, and
      its entry replaces the one at `t`. */
  function Replaced(t: Tree, spine: Path, y: Tree): Tree
    requires t.N? && y.N?
  {
    N(t.left, t.node, t.colour, y.entry, Plug(spine, y.right))
  }

  lemma ConsAppend<T>(x: T, r: seq<T>, b: seq<T>)
    ensures [] + ([x] + r) + b == [x] + ([] + r + b)
  {
  }

  /** In the right subtree the successor comes first. */
  lemma SuccessorFirst(t: Tree, spine: Path, y: Tree)
    requires t.N? && y.N? && y.left.E? && Spine(spine, Left) && Plug(spine, y) == t.right
    ensures Nodes(t.right) == [y.node] + Nodes(Plug(spine, y.right))
    ensures Entries(t.right) == [y.entry] + Entries(Plug(spine, y.right))
  {
    hide *;
    PlugInOrder(spine, y);
    PlugInOrder(spine, y.right);
    SpineInOrder(spine, Left);
    NodeLists(y);
    assert Nodes(y) == [y.node] + Nodes(y.right) && Entries(y) == [y.entry] + Entries(y.right);
    ConsAppend(y.node, Nodes(y.right), NodesAfter(spine));
    ConsAppend(y.entry, Entries(y.right), EntriesAfter(spine));
  }

  lemma ReplacedLists(t: Tree, spine: Path, y: Tree)
    requires t.N? && y.N?
    ensures Nodes(Replaced(t, spine, y)) == Nodes(t.left) + [t.node] + Nodes(Plug(spine, y.right))
    ensures Entries(Replaced(t, spine, y)) == Entries(t.left) + [y.entry] + Entries(Plug(spine, y.right))
  {
    hide Plug;
    NodeLists(Replaced(t, spine, y));
  }

  lemma DropSecond<T>(a: seq<T>, l: seq<T>, x: T, y: T, r: seq<T>, b: seq<T>)
    ensures var s := a + (l + [x] + ([y] + r)) + b; var i := |a| + |l|;
      i + 1 < |s| && s[i] == x && s[i + 1] == y && a + (l + [x] + r) + b == Without(s, i + 1)
  {
    hide *;
    Regroup(a, l + [x], y, r, b);
    WithoutMiddle(a + (l + [x]), y, r + b);
    assert l + [x] + ([y] + r) == (l + [x]) + [y] + r;
    assert a + (l + [x] + r) + b == (a + (l + [x])) + (r + b);
  }

  lemma ReplaceNodes(p: Path, t: Tree, spine: Path, y: Tree)
    requires t.N? && y.N? && y.left.E? && Spine(spine, Left) && Plug(spine, y) == t.right
    ensures var i := |NodesBefore(p)| + |Nodes(t.left)|; var whole := Plug(p, t);
      && i + 1 < |Nodes(whole)| && Nodes(whole)[i] == t.node && Nodes(whole)[i + 1] == y.node
      && Nodes(Plug(p, Replaced(t, spine, y))) == Without(Nodes(whole), i + 1)
  {
    hide *;
    SuccessorFirst(t, spine, y);
    ReplacedLists(t, spine, y);
    var r := Plug(spine, y.right);
    NodeLists(t);
    PlugInOrder(p, t);
    PlugInOrder(p, Replaced(t, spine, y));
    DropSecond(NodesBefore(p), Nodes(t.left), t.node, y.node, Nodes(r), NodesAfter(p));
  }

  lemma Shifted<T>(a: seq<T>, l: seq<T>, y: T, r: seq<T>, b: seq<T>)
    ensures a + (l + [y] + r) + b == (a + l) + (([y] + r) + b)
  {
  }

  lemma DropFirst<T>(a: seq<T>, l: seq<T>, x: T, y: T, r: seq<T>, b: seq<T>)
    ensures var s := a + (l + [x] + ([y] + r)) + b; var i := |a| + |l|;
      i < |s| && s[i] == x && a + (l + [y] + r) + b == Without(s, i)
  {
    hide *;
    var k := [y] + r;
    Regroup(a, l, x, k, b);
    WithoutMiddle(a + l, x, k + b);
    Shifted(a, l, y, r, b);
  }

  lemma ReplaceEntries(p: Path, t: Tree, spine: Path, y: Tree)
    requires t.N? && y.N? && y.left.E? && Spine(spine, Left) && Plug(spine, y) == t.right
    ensures var i := |EntriesBefore(p)| + |Entries(t.left)|; var whole := Plug(p, t);
      && i < |Entries(whole)| && Entries(whole)[i] == t.entry
      && Entries(Plug(p, Replaced(t, spine, y))) == Without(Entries(whole), i)
  {
    hide *;
    SuccessorFirst(t, spine, y);
    ReplacedLists(t, spine, y);
    var r := Plug(spine, y.right);
    NodeLists(t);
    PlugInOrder(p, t);
    PlugInOrder(p, Replaced(t, spine, y));
    DropFirst(EntriesBefore(p), Entries(t.left), t.entry, y.entry, Entries(r), EntriesAfter(p));
  }

  lemma ReplaceInOrder(p: Path, t: Tree, spine: Path, y: Tree)
    requires t.N? && y.N? && y.left.E? && Spine(spine, Left) && Plug(spine, y) == t.right
    ensures var i := |NodesBefore(p)| + |Nodes(t.left)|; var whole := Plug(p, t);
      && i + 1 < |Nodes(whole)| && i < |Entries(whole)|
      && Nodes(whole)[i] == t.node && Nodes(whole)[i + 1] == y.node && Entries(whole)[i] == t.entry
      && Nodes(Plug(p, Replaced(t, spine, y))) == Without(Nodes(whole), i + 1)
      && Entries(Plug(p, Replaced(t, spine, y))) == Without(Entries(whole), i)
  {
    hide *;
    PathLengths(p);
    InOrderLengths(t.left);
    ReplaceNodes(p, t, spine, y);
    ReplaceEntries(p, t, spine, y);
  }
}
