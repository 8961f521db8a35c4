/** CM_PointLeafnum_r and CM_BoxLeafnums_r of qcommon/cmodel.c with BoxOnPlaneSide of
    game/q_shared.c: which leafs of a BSP tree hold a point, and which a box reaches. */
module Leafs {
  import opened Geometry

  datatype Node = Node(plane: Plane, front: int, back: int)

  /** The tree that a node number stands for; a negative number is the leaf -1 - number. */
  datatype Bsp = Leaf(leaf: nat) | Split(node: nat, plane: Plane, front: Bsp, back: Bsp)

  /** The sign bits CMod_LoadPlanes stores. */
  predicate PlaneOk(plane: Plane) {
    plane.signbits == (if plane.normal.x < 0.0 then 1 else 0)
      + (if plane.normal.y < 0.0 then 2 else 0) + (if plane.normal.z < 0.0 then 4 else 0)
  }

  ghost predicate Represents(nodes: seq<Node>, number: int, t: Bsp)
    decreases t
  {
    match t
    case Leaf(leaf) => number == -1 - leaf
    case Split(node, plane, front, back) =>
      && number == node < |nodes| && nodes[node].plane == plane && PlaneOk(plane)
      && Represents(nodes, nodes[node].front, front) && Represents(nodes, nodes[node].back, back)
  }

  // ---------------------------------------------------------------------------------------------
  // Sides of a plane

  function Component(v: Vec3, axis: nat): real {
    if axis == 0 then v.x else if axis == 1 then v.y else v.z
  }

  /** The signed distance that decides on which side a point lies. */
  function Height(p: Vec3, plane: Plane): real {
    if plane.kind < 3 then Component(p, plane.kind) - plane.dist else Dot(plane.normal, p) - plane.dist
  }

  lemma HeightIs(p: Vec3, plane: Plane)
    ensures plane.kind == 0 ==> Height(p, plane) == p.x - plane.dist
    ensures plane.kind == 1 ==> Height(p, plane) == p.y - plane.dist
    ensures plane.kind == 2 ==> Height(p, plane) == p.z - plane.dist
    ensures plane.kind > 2 ==> Height(p, plane) == Dot(plane.normal, p) - plane.dist
  {
  }

  /** BoxOnPlaneSide: 1 for the front, 2 for the back and 3 for both. */
  function BoxOnPlaneSide(mins: Vec3, maxs: Vec3, p: Plane): nat {
    var (near, far) :=
      match p.signbits
      case 0 => (maxs, mins)
      case 1 => (Vec3(mins.x, maxs.y, maxs.z), Vec3(maxs.x, mins.y, mins.z))
      case 2 => (Vec3(maxs.x, mins.y, maxs.z), Vec3(mins.x, maxs.y, mins.z))
      case 3 => (Vec3(mins.x, mins.y, maxs.z), Vec3(maxs.x, maxs.y, mins.z))
      case 4 => (Vec3(maxs.x, maxs.y, mins.z), Vec3(mins.x, mins.y, maxs.z))
      case 5 => (Vec3(mins.x, maxs.y, mins.z), Vec3(maxs.x, mins.y, maxs.z))
      case 6 => (Vec3(maxs.x, mins.y, mins.z), Vec3(mins.x, maxs.y, maxs.z))
      case 7 => (mins, maxs)
      case _ => (Vec3(0.0, 0.0, 0.0), Vec3(0.0, 0.0, 0.0));
    (if Dot(p.normal, near) >= p.dist then 1 else 0) + (if Dot(p.normal, far) < p.dist then 2 else 0)
  }

  /** The BOX_ON_PLANE_SIDE macro, with its shortcut for axial planes. */
  function BoxSide(mins: Vec3, maxs: Vec3, p: Plane): nat {
    if p.kind < 3 then
      if p.dist <= Component(mins, p.kind) then 1
      else if p.dist >= Component(maxs, p.kind) then 2
      else 3
    else BoxOnPlaneSide(mins, maxs, p)
  }

  /** Within a box that does not include its maximal faces. */
  predicate HalfOpen(p: Vec3, mins: Vec3, maxs: Vec3) {
    mins.x <= p.x < maxs.x && mins.y <= p.y < maxs.y && mins.z <= p.z < maxs.z
  }

  lemma CornersOfSigns(mins: Vec3, maxs: Vec3, p: Plane)
    requires PlaneOk(p)
    ensures BoxOnPlaneSide(mins, maxs, p)
         == (if Dot(p.normal, FrontCorner(p.normal, mins, maxs)) >= p.dist then 1 else 0)
          + (if Dot(p.normal, BackCorner(p.normal, mins, maxs)) < p.dist then 2 else 0)
  {
    hide Dot;
  }

  /** For planes that are not axial the answer is exact: the box is given to a side if and only if one
      of its points lies there. */
  lemma GeneralSideExact(mins: Vec3, maxs: Vec3, p: Plane)
    requires PlaneOk(p) && p.kind >= 3 && BoxOk(mins, maxs)
    ensures BoxSide(mins, maxs, p) in {1, 2, 3}
    ensures BoxSide(mins, maxs, p) != 2 <==> exists q :: Within(q, mins, maxs) && Height(q, p) >= 0.0
    ensures BoxSide(mins, maxs, p) != 1 <==> exists q :: Within(q, mins, maxs) && Height(q, p) < 0.0
  {
    hide Dot;
    var b, f := BackCorner(p.normal, mins, maxs), FrontCorner(p.normal, mins, maxs);
    CornersOfSigns(mins, maxs, p);
    CornersWithin(p.normal, mins, maxs);
    CornersBound(p.normal, mins, maxs, b);
    assert Height(f, p) == Dot(p.normal, f) - p.dist && Height(b, p) == Dot(p.normal, b) - p.dist;
    forall q | Within(q, mins, maxs)
      ensures Height(b, p) <= Height(q, p) <= Height(f, p)
    {
      CornersBound(p.normal, mins, maxs, q);
    }
  }

  /** For axial planes it is exact for a box without its maximal faces. */
  lemma AxialSideExact(mins: Vec3, maxs: Vec3, p: Plane)
    requires p.kind < 3 && HalfOpen(mins, mins, maxs)
    ensures BoxSide(mins, maxs, p) in {1, 2, 3}
    ensures BoxSide(mins, maxs, p) != 2 <==> exists q :: HalfOpen(q, mins, maxs) && Height(q, p) >= 0.0
    ensures BoxSide(mins, maxs, p) != 1 <==> exists q :: HalfOpen(q, mins, maxs) && Height(q, p) < 0.0
  {
    if Component(mins, p.kind) < p.dist < Component(maxs, p.kind) {
      var q := if p.kind == 0 then mins.(x := p.dist)
               else if p.kind == 1 then mins.(y := p.dist)
               else mins.(z := p.dist);
      assert HalfOpen(q, mins, maxs) && Height(q, p) >= 0.0;
      assert HalfOpen(mins, mins, maxs) && Height(mins, p) < 0.0;
    } else {
      assert HalfOpen(mins, mins, maxs);
      assert Height(mins, p) >= 0.0 || Height(mins, p) < 0.0;
    }
  }

  /** A point of the box that the axial shortcut puts on the other side of a plane than the point
      test does: it lies on the box's maximal face, which lies in the plane. */
  predicate Grazes(mins: Vec3, maxs: Vec3, p: Plane, q: Vec3) {
    && p.kind < 3
    && Component(q, p.kind) == p.dist == Component(maxs, p.kind)
    && Component(mins, p.kind) < p.dist
  }

  lemma SideHasPoint(mins: Vec3, maxs: Vec3, p: Plane, q: Vec3)
    requires PlaneOk(p) && Within(q, mins, maxs)
    ensures Height(q, p) >= 0.0 ==> (BoxSide(mins, maxs, p) == 2 <==> Grazes(mins, maxs, p, q))
    ensures Height(q, p) < 0.0 ==> BoxSide(mins, maxs, p) != 1 && !Grazes(mins, maxs, p, q)
  {
    if p.kind >= 3 {
      GeneralSideExact(mins, maxs, p);
    }
  }

  // ---------------------------------------------------------------------------------------------
  // The leafs of a point and of a box

  function PointLeaf(t: Bsp, p: Vec3): nat {
    match t
    case Leaf(leaf) => leaf
    case Split(_, plane, front, back) => PointLeaf(if Height(p, plane) < 0.0 then back else front, p)
  }

  /** At a node the point goes to the front child unless it lies behind the plane. */
  lemma PointStep(node: nat, plane: Plane, front: Bsp, back: Bsp, p: Vec3)
    ensures PointLeaf(Split(node, plane, front, back), p) ==
      PointLeaf(if Height(p, plane) >= 0.0 then front else back, p)
  {
  }

  /** The leafs the box reaches, in the order in which they are listed. */
  function BoxLeafs(t: Bsp, mins: Vec3, maxs: Vec3): (r: seq<nat>) {
    match t
    case Leaf(leaf) => [leaf]
    case Split(_, plane, front, back) =>
      var s := BoxSide(mins, maxs, plane);
      if s == 1 then BoxLeafs(front, mins, maxs)
      else if s == 2 then BoxLeafs(back, mins, maxs)
      else BoxLeafs(front, mins, maxs) + BoxLeafs(back, mins, maxs)
  }

  /** The first node at which the box goes both ways; itself a leaf if there is none. */
  function TopTree(t: Bsp, mins: Vec3, maxs: Vec3): Bsp {
    match t
    case Leaf(_) => t
    case Split(_, plane, front, back) =>
      var s := BoxSide(mins, maxs, plane);
      if s == 1 then TopTree(front, mins, maxs)
      else if s == 2 then TopTree(back, mins, maxs)
      else t
  }

  function TopNode(t: Bsp, mins: Vec3, maxs: Vec3): int {
    match TopTree(t, mins, maxs)
    case Leaf(_) => -1
    case Split(node, _, _, _) => node
  }

  /** The point grazes one of the planes on its own way down. */
  predicate GrazesOnTheWay(t: Bsp, mins: Vec3, maxs: Vec3, p: Vec3) {
    match t
    case Leaf(_) => false
    case Split(_, plane, front, back) =>
      Grazes(mins, maxs, plane, p) || GrazesOnTheWay(if Height(p, plane) < 0.0 then back else front, mins, maxs, p)
  }

  function LeafsOf(t: Bsp): set<nat> {
    match t
    case Leaf(leaf) => {leaf}
    case Split(_, _, front, back) => LeafsOf(front) + LeafsOf(back)
  }

  ghost predicate LeafsDistinct(t: Bsp) {
    match t
    case Leaf(_) => true
    case Split(_, _, front, back) => LeafsOf(front) !! LeafsOf(back) && LeafsDistinct(front) && LeafsDistinct(back)
  }

  ghost predicate PlanesOk(t: Bsp) {
    match t
    case Leaf(_) => true
    case Split(_, plane, front, back) => PlaneOk(plane) && PlanesOk(front) && PlanesOk(back)
  }

  lemma {:induction false} RepresentedPlanes(nodes: seq<Node>, number: int, t: Bsp)
    requires Represents(nodes, number, t)
    ensures PlanesOk(t)
    decreases t
  {
    if t.Split? {
      RepresentedPlanes(nodes, nodes[t.node].front, t.front);
      RepresentedPlanes(nodes, nodes[t.node].back, t.back);
    }
  }

  /** Every node number stands for one tree at most. */
  lemma {:induction false} RepresentsOne(nodes: seq<Node>, number: int, t: Bsp, u: Bsp)
    requires Represents(nodes, number, t) && Represents(nodes, number, u)
    ensures t == u
    decreases t
  {
    if t.Split? {
      RepresentsOne(nodes, nodes[t.node].front, t.front, u.front);
      RepresentsOne(nodes, nodes[t.node].back, t.back, u.back);
    }
  }

  lemma {:induction false} LeafsBound(t: Bsp, mins: Vec3, maxs: Vec3, p: Vec3)
    ensures PointLeaf(t, p) in LeafsOf(t)
    ensures forall l <- BoxLeafs(t, mins, maxs) :: l in LeafsOf(t)
    ensures BoxLeafs(t, mins, maxs) != []
  {
    if t.Split? {
      LeafsBound(t.front, mins, maxs, p);
      LeafsBound(t.back, mins, maxs, p);
    }
  }

  /** Coverage: a point of the box that grazes no plane has its leaf in the list. */
  lemma {:induction false} BoxHasPointLeaf(t: Bsp, mins: Vec3, maxs: Vec3, p: Vec3)
    requires PlanesOk(t) && Within(p, mins, maxs) && !GrazesOnTheWay(t, mins, maxs, p)
    ensures PointLeaf(t, p) in BoxLeafs(t, mins, maxs)
  {
    if t.Split? {
      SideHasPoint(mins, maxs, t.plane, p);
      BoxHasPointLeaf(if Height(p, t.plane) < 0.0 then t.back else t.front, mins, maxs, p);
    }
  }

  /** The points of a box without its maximal faces graze nothing, so all their leafs are listed. */
  lemma {:induction false} HalfOpenGrazesNothing(t: Bsp, mins: Vec3, maxs: Vec3, p: Vec3)
    requires HalfOpen(p, mins, maxs)
    ensures !GrazesOnTheWay(t, mins, maxs, p)
  {
    if t.Split? {
      HalfOpenGrazesNothing(t.front, mins, maxs, p);
      HalfOpenGrazesNothing(t.back, mins, maxs, p);
    }
  }

  /** On the closed box, where no leaf is shared between branches, grazing is exactly what loses a
      point's leaf. */
  lemma {:induction false} ClosedBoxCoverage(t: Bsp, mins: Vec3, maxs: Vec3, p: Vec3)
    requires PlanesOk(t) && Within(p, mins, maxs) && LeafsDistinct(t)
    ensures PointLeaf(t, p) in BoxLeafs(t, mins, maxs) <==> !GrazesOnTheWay(t, mins, maxs, p)
  {
    if t.Split? {
      var behind := Height(p, t.plane) < 0.0;
      var way, other := if behind then t.back else t.front, if behind then t.front else t.back;
      SideHasPoint(mins, maxs, t.plane, p);
      ClosedBoxCoverage(way, mins, maxs, p);
      LeafsBound(way, mins, maxs, p);
      LeafsBound(other, mins, maxs, p);
    }
  }

  /** The corner of a box that reaches up to an axial plane is in front of it, but the box is put
      wholly behind. */
  lemma ClosedBoxLosesCorner()
    ensures exists t: Bsp, mins, maxs ::
      PlanesOk(t) && BoxOk(mins, maxs) && PointLeaf(t, maxs) !in BoxLeafs(t, mins, maxs)
  {
    var plane := Plane(Vec3(1.0, 0.0, 0.0), 8.0, 0, 0);
    var t := Split(0, plane, Leaf(1), Leaf(2));
    var mins, maxs := Vec3(0.0, 0.0, 0.0), Vec3(8.0, 8.0, 8.0);
    assert PlanesOk(t) && BoxOk(mins, maxs);
    assert PointLeaf(t, maxs) == 1 && BoxLeafs(t, mins, maxs) == [2];
  }

  ghost predicate Subtree(s: Bsp, t: Bsp) {
    s == t || (t.Split? && (Subtree(s, t.front) || Subtree(s, t.back)))
  }

  /** All leafs listed lie under the top node, which the box splits; without a top node there is one
      leaf only. The points of the box all come through the top node. */
  lemma {:induction false} TopNodeMeaning(t: Bsp, mins: Vec3, maxs: Vec3)
    requires PlanesOk(t) && BoxOk(mins, maxs)
    ensures var top := TopTree(t, mins, maxs);
      && Subtree(top, t) && BoxLeafs(t, mins, maxs) == BoxLeafs(top, mins, maxs)
      && (TopNode(t, mins, maxs) == -1 <==> top.Leaf?)
      && (top.Leaf? ==> BoxLeafs(t, mins, maxs) == [top.leaf])
      && (top.Split? ==> BoxLeafs(t, mins, maxs) == BoxLeafs(top.front, mins, maxs) + BoxLeafs(top.back, mins, maxs))
      && forall p :: Within(p, mins, maxs) && !GrazesOnTheWay(t, mins, maxs, p) ==> PointLeaf(t, p) == PointLeaf(top, p)
  {
    if t.Split? {
      var s := BoxSide(mins, maxs, t.plane);
      if s == 1 {
        TopNodeMeaning(t.front, mins, maxs);
      } else if s == 2 {
        TopNodeMeaning(t.back, mins, maxs);
      }
      forall p | Within(p, mins, maxs) && !GrazesOnTheWay(t, mins, maxs, p)
        ensures s == 1 ==> Height(p, t.plane) >= 0.0
        ensures s == 2 ==> Height(p, t.plane) < 0.0
      {
        SideHasPoint(mins, maxs, t.plane, p);
      }
    }
  }

  /** A list that stops at its capacity. */
  function Clamped(s: seq<nat>, max: nat): seq<nat> {
    if |s| <= max then s else s[..max]
  }

  /** As many as there is room for, from the front. */
  lemma ClampedIs(s: seq<nat>, max: nat)
    ensures Clamped(s, max) <= s && |Clamped(s, max)| == if |s| < max then |s| else max
  {
  }

  lemma Descend(t: Bsp, mins: Vec3, maxs: Vec3)
    requires t.Split?
    ensures var s := BoxSide(mins, maxs, t.plane);
      var front, back := BoxLeafs(t.front, mins, maxs), BoxLeafs(t.back, mins, maxs);
      && BoxLeafs(t, mins, maxs) == (if s == 1 then front else if s == 2 then back else front + back)
      && TopNode(t, mins, maxs) == (if s == 1 then TopNode(t.front, mins, maxs)
                                    else if s == 2 then TopNode(t.back, mins, maxs) else t.node)
  {
  }

  lemma AtLeaf(t: Bsp, mins: Vec3, maxs: Vec3)
    requires t.Leaf?
    ensures BoxLeafs(t, mins, maxs) == [t.leaf] && TopNode(t, mins, maxs) == -1
  {
  }

  lemma ClampThenAppend(s: seq<nat>, b: seq<nat>, max: nat)
    ensures Clamped(Clamped(s, max) + b, max) == Clamped(s + b, max)
  {
    if |s| > max {
      assert (s[..max] + b)[..max] == s[..max] == (s + b)[..max];
    }
  }

  lemma ClampTwice(done: seq<nat>, a: seq<nat>, b: seq<nat>, max: nat)
    ensures Clamped(Clamped(done + a, max) + b, max) == Clamped(done + (a + b), max)
  {
    assert done + (a + b) == (done + a) + b;
    ClampThenAppend(done + a, b, max);
  }

  // ---------------------------------------------------------------------------------------------
  // The code

  /** The loaded map, and the globals with which CM_BoxLeafnums walks it. */
  class CollisionMap {
    const nodes: seq<Node>
    const planes: nat
    var leafList: array<nat>
    var leafCount: nat
    var leafMax: nat
    var leafMins: Vec3
    var leafMaxs: Vec3
    var topNode: int

    constructor (nodes: seq<Node>, planes: nat)
      ensures this.nodes == nodes && this.planes == planes
    {
      this.nodes := nodes;
      this.planes := planes;
      leafList := new nat[0];
      leafCount, leafMax, topNode := 0, 0, -1;
      leafMins, leafMaxs := Vec3(0.0, 0.0, 0.0), Vec3(0.0, 0.0, 0.0);
    }

    /** CM_PointLeafnum_r. */
    method PointLeafnumR(p: Vec3, number: int, ghost t: Bsp) returns (leaf: nat)
      requires Represents(nodes, number, t)
      ensures leaf == PointLeaf(t, p)
    {
      var num := number;
      ghost var rest := t;
      while num >= 0
        invariant Represents(nodes, num, rest) && PointLeaf(rest, p) == PointLeaf(t, p)
        decreases rest
      {
        var node := nodes[num];
        var d := if node.plane.kind < 3 then Component(p, node.plane.kind) - node.plane.dist
                 else Dot(node.plane.normal, p) - node.plane.dist;
        if d < 0.0 {
          num := node.back;
          rest := rest.back;
        } else {
          num := node.front;
          rest := rest.front;
        }
      }
      leaf := -1 - num;
    }

    /** CM_PointLeafnum. */
    method PointLeafnum(p: Vec3, ghost t: Bsp) returns (leaf: nat)
      requires planes != 0 ==> Represents(nodes, 0, t)
      ensures leaf == if planes == 0 then 0 else PointLeaf(t, p)
    {
      if planes == 0 {
        return 0;
      }
      leaf := PointLeafnumR(p, 0, t);
    }

    ghost predicate Valid()
      reads this
    {
      leafCount <= leafMax <= leafList.Length
    }

    ghost function Listed(): seq<nat>
      requires Valid()
      reads this, leafList
    {
      leafList[..leafCount]
    }

    method AddLeaf(leaf: nat)
      requires Valid()
      modifies this`leafCount, leafList
      ensures Valid() && leafCount >= old(leafCount)
      ensures Listed() == Clamped(old(Listed()) + [leaf], leafMax)
      ensures forall i :: leafCount <= i < leafList.Length ==> leafList[i] == old(leafList[i])
    {
      if leafCount >= leafMax {
        return;
      }
      leafList[leafCount] := leaf;
      leafCount := leafCount + 1;
    }

    /** CM_BoxLeafnums_r. */
    method BoxLeafnumsR(number: int, ghost t: Bsp)
      requires Valid() && Represents(nodes, number, t)
      modifies this`leafCount, this`topNode, leafList
      ensures Valid() && leafCount >= old(leafCount)
      ensures Listed() == Clamped(old(Listed()) + BoxLeafs(t, leafMins, leafMaxs), leafMax)
      ensures forall i :: leafCount <= i < leafList.Length ==> leafList[i] == old(leafList[i])
      ensures topNode == if old(topNode) == -1 then TopNode(t, leafMins, leafMaxs) else old(topNode)
      decreases t
    {
      hide Clamped, BoxLeafs, TopNode, BoxSide;
      var num := number;
      ghost var rest := t;
      ghost var due := Listed() + BoxLeafs(t, leafMins, leafMaxs);
      while num >= 0
        invariant Valid() && Represents(nodes, num, rest) && (rest == t || rest < t)
        invariant Clamped(Listed() + BoxLeafs(rest, leafMins, leafMaxs), leafMax) == Clamped(due, leafMax)
        invariant leafCount >= old(leafCount)
        invariant forall i :: leafCount <= i < leafList.Length ==> leafList[i] == old(leafList[i])
        invariant (if topNode == -1 then TopNode(rest, leafMins, leafMaxs) else topNode)
               == (if old(topNode) == -1 then TopNode(t, leafMins, leafMaxs) else old(topNode))
        decreases rest
      {
        var node := nodes[num];
        var s := BoxSide(leafMins, leafMaxs, node.plane);
        Descend(rest, leafMins, leafMaxs);
        if s == 1 {
          num := node.front;
          rest := rest.front;
        } else if s == 2 {
          num := node.back;
          rest := rest.back;
        } else {
          if topNode == -1 {
            topNode := num;
          }
          ghost var front, back := BoxLeafs(rest.front, leafMins, leafMaxs), BoxLeafs(rest.back, leafMins, leafMaxs);
          ClampTwice(Listed(), front, back, leafMax);
          BoxLeafnumsR(node.front, rest.front);
          num := node.back;
          rest := rest.back;
        }
      }
      AtLeaf(rest, leafMins, leafMaxs);
      AddLeaf(-1 - num);
    }

    /** CM_BoxLeafnums_headnode; the list handed in has room for `max` numbers. */
    method BoxLeafnumsHeadnode(mins: Vec3, maxs: Vec3, list: array<nat>, max: nat, head: int, ghost t: Bsp)
      returns (count: nat, top: int)
      requires max <= list.Length && Represents(nodes, head, t)
      modifies this, list
      ensures count <= max && list[..count] == Clamped(BoxLeafs(t, mins, maxs), max)
      ensures list[count..] == old(list[..])[count..]
      ensures top == TopNode(t, mins, maxs)
    {
      leafList := list;
      leafCount, leafMax := 0, max;
      leafMins, leafMaxs := mins, maxs;
      topNode := -1;
      BoxLeafnumsR(head, t);
      count, top := leafCount, topNode;
      assert [] + BoxLeafs(t, mins, maxs) == BoxLeafs(t, mins, maxs);
    }
  }

  /** The coverage theorem for the list that CM_BoxLeafnums_headnode delivers, when it is not filled up:
      a point of the box has the leaf that CM_PointLeafnum_r finds for it in the list, unless it grazes
      a plane on its way down; where no leaf is shared between branches, grazing always loses it. No
      point of the box without its maximal faces grazes. A reported top node has all listed leafs below
      it. Both walks start from the same node number; `t` and `u` are the trees they know it by. */
  lemma ListCoversBox(nodes: seq<Node>, head: int, t: Bsp, u: Bsp, mins: Vec3, maxs: Vec3, max: nat, p: Vec3)
    requires Represents(nodes, head, t) && Represents(nodes, head, u)
    requires Within(p, mins, maxs) && |Clamped(BoxLeafs(t, mins, maxs), max)| < max
    ensures var list, leaf := Clamped(BoxLeafs(t, mins, maxs), max), PointLeaf(u, p);
      && (!GrazesOnTheWay(u, mins, maxs, p) ==> leaf in list)
      && (LeafsDistinct(u) ==> (leaf in list <==> !GrazesOnTheWay(u, mins, maxs, p)))
      && (HalfOpen(p, mins, maxs) ==> leaf in list)
      && (TopNode(t, mins, maxs) == -1 ==> |list| == 1)
      && (TopNode(t, mins, maxs) != -1 ==>
            exists top :: Subtree(top, u) && top.Split? && top.node == TopNode(t, mins, maxs)
                       && forall l <- list :: l in LeafsOf(top))
  {
    RepresentsOne(nodes, head, t, u);
    RepresentedPlanes(nodes, head, t);
    TopNodeMeaning(t, mins, maxs);
    var top := TopTree(t, mins, maxs);
    LeafsBound(top, mins, maxs, p);
    assert Subtree(top, t);
    hide BoxLeafs, PointLeaf, GrazesOnTheWay, LeafsDistinct, TopTree, Subtree, LeafsOf;
    if !GrazesOnTheWay(t, mins, maxs, p) {
      BoxHasPointLeaf(t, mins, maxs, p);
    }
    if LeafsDistinct(t) {
      ClosedBoxCoverage(t, mins, maxs, p);
    }
    if HalfOpen(p, mins, maxs) {
      HalfOpenGrazesNothing(t, mins, maxs, p);
    }
  }
}
