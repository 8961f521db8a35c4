/** Sorted lists of entries: where a key belongs, and what a list says as a map. */
module RedBlackOrder {
  import opened RedBlackShape

  predicate AllBelow(s: seq<Entry>, key: int) {
    forall i :: 0 <= i < |s| ==> s[i].key < key
  }

  predicate AllAbove(s: seq<Entry>, key: int) {
    forall i :: 0 <= i < |s| ==> s[i].key > key
  }

  predicate Has(s: seq<Entry>, key: int) {
    exists i :: 0 <= i < |s| && s[i].key == key
  }

  /** How many entries have smaller keys; in a sorted list, the place where `key` is or belongs. */
  function Rank(s: seq<Entry>, key: int): (r: nat)
    ensures r <= |s|
  {
    if s == [] then 0 else Rank(s[..|s| - 1], key) + if s[|s| - 1].key < key then 1 else 0
  }

  lemma {:induction false} RankAll(s: seq<Entry>, key: int)
    ensures AllBelow(s, key) ==> Rank(s, key) == |s|
    ensures (forall i :: 0 <= i < |s| ==> s[i].key >= key) ==> Rank(s, key) == 0
  {
    if s != [] {
      RankAll(s[..|s| - 1], key);
    }
  }

  lemma {:induction false} RankConcat(a: seq<Entry>, b: seq<Entry>, key: int)
    ensures Rank(a + b, key) == Rank(a, key) + Rank(b, key)
  {
    if b == [] {
      assert a + b == a;
    } else {
      RankConcat(a, b[..|b| - 1], key);
      assert (a + b)[..|a + b| - 1] == a + b[..|b| - 1];
    }
  }

  /** What is below the key comes before its rank, and the rest after. */
  lemma {:induction false} RankSplits(s: seq<Entry>, key: int)
    requires Ascending(s)
    ensures forall i :: 0 <= i < |s| ==> (s[i].key < key <==> i < Rank(s, key))
  {
    if s != [] {
      var init := s[..|s| - 1];
      assert forall i :: 0 <= i < |init| ==> init[i] == s[i] && init[i].key < s[|s| - 1].key;
      RankSplits(init, key);
      hide Ascending;
      if s[|s| - 1].key < key {
        RankAll(init, key);
      }
    }
  }

  /** A key is at its rank or nowhere. */
  lemma RankFinds(s: seq<Entry>, key: int)
    requires Ascending(s)
    ensures AllBelow(s[..Rank(s, key)], key)
    ensures forall i :: Rank(s, key) <= i < |s| ==> s[i].key >= key
    ensures Has(s, key) <==> Rank(s, key) < |s| && s[Rank(s, key)].key == key
  {
    RankSplits(s, key);
    var r := Rank(s, key);
    hide Rank;
    assert forall i :: r < i < |s| ==> s[r].key < s[i].key;
  }

  /** The list as a map from keys to data. */
  function Contents(s: seq<Entry>): map<int, nat> {
    if s == [] then map[] else Contents(s[..|s| - 1])[s[|s| - 1].key := s[|s| - 1].data]
  }

  lemma LastIsGreatest(s: seq<Entry>)
    requires Ascending(s) && s != []
    ensures var init, last := s[..|s| - 1], s[|s| - 1];
      Ascending(init) && forall e <- init :: e.key < last.key
  {
  }

  lemma HasExtended(s: seq<Entry>, key: int)
    requires s != []
    ensures Has(s, key) <==> Has(s[..|s| - 1], key) || s[|s| - 1].key == key
  {
    var init := s[..|s| - 1];
    assert forall i :: 0 <= i < |init| ==> init[i] == s[i];
  }

  /** In a sorted list, an entry is listed exactly if the map has it. */
  lemma {:induction false} ContentsListed(s: seq<Entry>, e: Entry)
    requires Ascending(s)
    ensures e in s <==> e.key in Contents(s) && Contents(s)[e.key] == e.data
    ensures e.key in Contents(s) <==> Has(s, e.key)
  {
    if s != [] {
      var init, last := s[..|s| - 1], s[|s| - 1];
      LastIsGreatest(s);
      HasExtended(s, e.key);
      ContentsListed(init, e);
      assert s == init + [last];
      hide Has, Ascending;
      assert e in s <==> e in init || e == last;
    }
  }

  lemma ListedAlike(s: seq<Entry>, t: seq<Entry>, e: Entry, x: Entry)
    requires Ascending(s) && Ascending(t)
    requires x in t <==> x == e || x in s
    requires !Has(s, e.key)
    ensures var m := Contents(s)[e.key := e.data];
      (x.key in Contents(t) && Contents(t)[x.key] == x.data) <==> (x.key in m && m[x.key] == x.data)
  {
    ContentsListed(t, x);
    ContentsListed(s, x);
    if x in s {
      var i :| 0 <= i < |s| && s[i] == x;
      assert Has(s, x.key);
    }
  }

  lemma SameMap(a: map<int, nat>, b: map<int, nat>)
    requires forall x: Entry ::
      (x.key in a && a[x.key] == x.data) <==> (x.key in b && b[x.key] == x.data)
    ensures a == b
  {
    forall k | k in a ensures k in b && b[k] == a[k] {
      assert Entry(k, a[k]).key == k;
    }
    forall k | k in b ensures k in a {
      assert Entry(k, b[k]).key == k;
    }
  }

  /** Two sorted lists that differ in one entry, as maps. */
  lemma ContentsExtended(s: seq<Entry>, t: seq<Entry>, e: Entry)
    requires Ascending(s) && Ascending(t)
    requires forall x :: x in t <==> x == e || x in s
    requires !Has(s, e.key)
    ensures Contents(t) == Contents(s)[e.key := e.data] && Contents(s) == Contents(t) - {e.key}
  {
    hide *;
    var m := Contents(s)[e.key := e.data];
    forall x: Entry
      ensures (x.key in Contents(t) && Contents(t)[x.key] == x.data) <==> (x.key in m && m[x.key] == x.data)
    {
      ListedAlike(s, t, e, x);
    }
    SameMap(Contents(t), m);
    ContentsListed(s, e);
    assert Contents(s) == Contents(t) - {e.key};
  }

  lemma PartsAscending(a: seq<Entry>, b: seq<Entry>)
    requires Ascending(a + b)
    ensures Ascending(a) && Ascending(b)
  {
    assert forall i :: 0 <= i < |a| ==> a[i] == (a + b)[i];
    assert forall i :: 0 <= i < |b| ==> b[i] == (a + b)[|a| + i];
  }

  lemma InsertedAscending(a: seq<Entry>, e: Entry, b: seq<Entry>)
    requires Ascending(a) && Ascending(b) && AllBelow(a, e.key) && AllAbove(b, e.key)
    ensures Ascending(a + [e] + b) && !Has(a + b, e.key)
  {
    var t := a + [e] + b;
    forall i, j | 0 <= i < j < |t| ensures t[i].key < t[j].key {
      assert t[i] == if i < |a| then a[i] else if i == |a| then e else b[i - |a| - 1];
      assert t[j] == if j < |a| then a[j] else if j == |a| then e else b[j - |a| - 1];
      if i < |a| {
        assert t[i].key < e.key || j < |a|;
      }
    }
    assert forall i :: 0 <= i < |a + b| ==> (a + b)[i] == if i < |a| then a[i] else b[i - |a|];
  }

  lemma ContentsInserted(a: seq<Entry>, e: Entry, b: seq<Entry>)
    requires Ascending(a + b) && AllBelow(a, e.key) && AllAbove(b, e.key)
    ensures Ascending(a + [e] + b) && !Has(a + b, e.key)
    ensures Contents(a + [e] + b) == Contents(a + b)[e.key := e.data]
  {
    PartsAscending(a, b);
    InsertedAscending(a, e, b);
    hide Ascending;
    ContentsExtended(a + b, a + [e] + b, e);
  }

  lemma RemovedAscending(a: seq<Entry>, e: Entry, b: seq<Entry>)
    requires Ascending(a + [e] + b)
    ensures Ascending(a + b) && AllBelow(a, e.key) && AllAbove(b, e.key) && !Has(a + b, e.key)
  {
    var s := a + [e] + b;
    assert s[|a|] == e;
    assert forall j :: 0 <= j < |a| ==> a[j] == s[j];
    assert forall j :: 0 <= j < |b| ==> b[j] == s[|a| + 1 + j];
    assert forall j :: 0 <= j < |a + b| ==> (a + b)[j] == s[if j < |a| then j else j + 1];
  }

  lemma ContentsRemoved(s: seq<Entry>, i: nat)
    requires Ascending(s) && i < |s|
    ensures Ascending(s[..i] + s[i + 1..])
    ensures Contents(s[..i] + s[i + 1..]) == Contents(s) - {s[i].key}
  {
    var a, b := s[..i], s[i + 1..];
    assert s == a + [s[i]] + b;
    RemovedAscending(a, s[i], b);
    ContentsExtended(a + b, s, s[i]);
  }

  lemma ContentsUpdated(s: seq<Entry>, i: nat, d: nat)
    requires Ascending(s) && i < |s|
    ensures var e := Entry(s[i].key, d);
      Ascending(s[i := e]) && Contents(s[i := e]) == Contents(s)[e.key := d]
  {
    hide *;
    var e := Entry(s[i].key, d);
    var a, b := s[..i], s[i + 1..];
    assert s == a + [s[i]] + b;
    RemovedAscending(a, s[i], b);
    ContentsRemoved(s, i);
    assert a + [e] + b == s[i := e];
    hide Ascending;
    ContentsInserted(a, e, b);
  }

  // ---------------------------------------------------------------------------------------------
  // Walking down by key

  /** `key` belongs inside the subtree at the end of `p`. */
  predicate Between(p: Path, key: int) {
    AllBelow(EntriesBefore(p), key) && AllAbove(EntriesAfter(p), key)
  }

  function Into(p: Path, t: Tree, s: Side): Path
    requires t.N?
  {
    Down(s, t.node, t.colour, t.entry, Kid(t, Opposite(s)), p)
  }

  lemma Regroup<T>(a: seq<T>, l: seq<T>, x: T, r: seq<T>, b: seq<T>)
    ensures a + (l + [x] + r) + b == (a + l) + [x] + (r + b)
  {
  }

  /** The node at the end of a path splits the whole list. */
  lemma NodeSplits(p: Path, t: Tree)
    requires t.N? && Ascending(Entries(Plug(p, t)))
    ensures var x, y := EntriesBefore(p) + Entries(t.left), Entries(t.right) + EntriesAfter(p);
      && Entries(Plug(p, t)) == x + [t.entry] + y
      && AllBelow(x, t.entry.key) && AllAbove(y, t.entry.key)
  {
    assert Entries(t) == Entries(t.left) + [t.entry] + Entries(t.right);
    hide Entries, Plug, EntriesBefore, EntriesAfter, AllBelow, AllAbove, Ascending;
    PlugInOrder(p, t);
    var x, y := EntriesBefore(p) + Entries(t.left), Entries(t.right) + EntriesAfter(p);
    Regroup(EntriesBefore(p), Entries(t.left), t.entry, Entries(t.right), EntriesAfter(p));
    RemovedAscending(x, t.entry, y);
  }

  lemma AboveExtended(e: Entry, r: seq<Entry>, after: seq<Entry>, key: int)
    requires e.key > key && AllAbove(r + after, e.key)
    ensures AllAbove([e] + r + after, key)
  {
    var s := [e] + r + after;
    assert forall i :: 0 < i < |s| ==> s[i] == (r + after)[i - 1];
  }

  lemma BelowExtended(before: seq<Entry>, l: seq<Entry>, e: Entry, key: int)
    requires e.key < key && AllBelow(before + l, e.key)
    ensures AllBelow(before + (l + [e]), key)
  {
    var s := before + (l + [e]);
    assert forall i :: 0 <= i < |s| - 1 ==> s[i] == (before + l)[i];
  }

  lemma GoDown(p: Path, t: Tree, s: Side, key: int)
    requires t.N? && Ascending(Entries(Plug(p, t))) && Between(p, key)
    requires if s == Left then key < t.entry.key else key > t.entry.key
    ensures Between(Into(p, t, s), key)
    ensures Plug(Into(p, t, s), Kid(t, s)) == Plug(p, t)
  {
    NodeSplits(p, t);
    hide Ascending, AllAbove, AllBelow;
    if s == Left {
      AboveExtended(t.entry, Entries(t.right), EntriesAfter(p), key);
    } else {
      BelowExtended(EntriesBefore(p), Entries(t.left), t.entry, key);
    }
  }

  lemma RankSplit(a: seq<Entry>, b: seq<Entry>, key: int)
    requires AllBelow(a, key) && forall i :: 0 <= i < |b| ==> b[i].key >= key
    ensures Rank(a + b, key) == |a|
  {
    RankConcat(a, b, key);
    RankAll(a, key);
    RankAll(b, key);
  }

  lemma FoundRank(x: seq<Entry>, e: Entry, y: seq<Entry>)
    requires AllBelow(x, e.key) && AllAbove(y, e.key)
    ensures Rank(x + [e] + y, e.key) == |x| && Has(x + [e] + y, e.key)
  {
    assert x + [e] + y == x + ([e] + y);
    RankSplit(x, [e] + y, e.key);
    assert (x + [e] + y)[|x|] == e;
  }

  lemma MissingRank(a: seq<Entry>, b: seq<Entry>, key: int)
    requires AllBelow(a, key) && AllAbove(b, key)
    ensures Rank(a + b, key) == |a| && !Has(a + b, key)
  {
    RankSplit(a, b, key);
  }

  /** Where a descent ends: at the key's place in the list, with the key there or nowhere. */
  lemma DescentEnd(p: Path, t: Tree, key: int)
    requires Ascending(Entries(Plug(p, t))) && Between(p, key)
    requires t.E? || t.entry.key == key
    ensures var all := Entries(Plug(p, t));
      && Rank(all, key) == |EntriesBefore(p)| + (if t.E? then 0 else |Entries(t.left)|)
      && (Has(all, key) <==> t.N?)
  {
    if t.N? {
      NodeSplits(p, t);
      hide Ascending, AllAbove, AllBelow, Has, Rank, Plug;
      FoundRank(EntriesBefore(p) + Entries(t.left), t.entry, Entries(t.right) + EntriesAfter(p));
    } else {
      PlugInOrder(p, t);
      hide Ascending, AllAbove, AllBelow, Has, Rank, Plug;
      assert Entries(t) == [];
      assert EntriesBefore(p) + [] + EntriesAfter(p) == EntriesBefore(p) + EntriesAfter(p);
      MissingRank(EntriesBefore(p), EntriesAfter(p), key);
    }
  }

  function Inserted<T>(s: seq<T>, i: nat, x: T): (r: seq<T>)
    requires i <= |s|
    ensures |r| == |s| + 1 && r[i] == x
  {
    s[..i] + [x] + s[i..]
  }

  lemma LeafLists(p: Path, z: Node, e: Entry)
    ensures var leaf := N(E, z, Red, e, E);
      && Entries(Plug(p, leaf)) == EntriesBefore(p) + [e] + EntriesAfter(p)
      && Nodes(Plug(p, leaf)) == NodesBefore(p) + [z] + NodesAfter(p)
      && Entries(Plug(p, E)) == EntriesBefore(p) + EntriesAfter(p)
      && Nodes(Plug(p, E)) == NodesBefore(p) + NodesAfter(p)
    ensures |NodesBefore(p)| == |EntriesBefore(p)| && |NodesAfter(p)| == |EntriesAfter(p)|
    ensures Entries(E) == []
  {
    hide *;
    var leaf := N(E, z, Red, e, E);
    NodeLists(leaf);
    assert Entries(leaf) == [e] && Nodes(leaf) == [z];
    PlugInOrder(p, E);
    PlugInOrder(p, leaf);
    PathLengths(p);
  }

  lemma LeafContents(p: Path, e: Entry)
    requires Ascending(EntriesBefore(p) + EntriesAfter(p)) && Between(p, e.key)
    ensures var t := EntriesBefore(p) + [e] + EntriesAfter(p); var s := EntriesBefore(p) + EntriesAfter(p);
      Ascending(t) && !Has(s, e.key) && Contents(t) == Contents(s)[e.key := e.data]
  {
    ContentsInserted(EntriesBefore(p), e, EntriesAfter(p));
  }

  lemma SplitInserted<T>(a: seq<T>, b: seq<T>, x: T)
    ensures a + [] + b == a + b && Inserted(a + b, |a|, x) == a + [x] + b
  {
    assert (a + b)[..|a|] == a && (a + b)[|a|..] == b;
  }

  /** Hanging a leaf at the end of a descent inserts it at the key's rank. */
  lemma LeafPlace(p: Path, z: Node, e: Entry)
    requires Ascending(Entries(Plug(p, E))) && Between(p, e.key)
    ensures var leaf := N(E, z, Red, e, E); var all := Entries(Plug(p, E)); var i := Rank(all, e.key);
      && |Nodes(Plug(p, E))| == |all|
      && Entries(Plug(p, leaf)) == Inserted(all, i, e)
      && Nodes(Plug(p, leaf)) == Inserted(Nodes(Plug(p, E)), i, z)
      && Ascending(Inserted(all, i, e)) && !Has(all, e.key)
      && Contents(Inserted(all, i, e)) == Contents(all)[e.key := e.data]
  {
    hide *;
    LeafLists(p, z, e);
    DescentEnd(p, E, e.key);
    PathLengths(p);
    SplitInserted(EntriesBefore(p), EntriesAfter(p), e);
    SplitInserted(NodesBefore(p), NodesAfter(p), z);
    LeafContents(p, e);
  }
}
