/** In-order cursors over a tree, and RB_Purge of qcommon/files.c, which deletes every entry while a
    cursor is open on the same tree. */
module FileCache {
  import opened RedBlackShape
  import opened RedBlackOrder
  import opened RedBlackDelete
  import opened RedBlackTree

  /** `RBLIST`: the next node to be read. */
  class Cursor {
    var nextp: Node

    constructor (n: Node)
      ensures nextp == n
    {
      nextp := n;
    }
  }

  /** rbopenlist. */
  method OpenList(t: RbTree) returns (c: Cursor)
    requires t.Valid()
    ensures fresh(c) && c.nextp == t.NodeAt(0)
  {
    var first := t.Edge(Left);
    c := new Cursor(first);
  }

  /** rbreadlist, for a cursor standing at the i-th node: the key there, and one step forward. */
  method ReadList(t: RbTree, c: Cursor, ghost i: nat) returns (more: bool, key: int)
    requires t.Valid() && i <= |Nodes(t.shape)| && c.nextp == t.NodeAt(i)
    modifies c
    ensures t.Valid() && t.shape == old(t.shape) && t.nodes == old(t.nodes)
    ensures more <==> i < |Nodes(t.shape)|
    ensures |Nodes(t.shape)| == |Entries(t.shape)|
    ensures more ==> key == Entries(t.shape)[i].key && c.nextp == t.NodeAt(i + 1)
    ensures !more ==> c.nextp == t.nil
  {
    hide *;
    t.CursorAt(i);
    key := 0;
    more := c.nextp != t.nil;
    if more {
      key := c.nextp.key;
      c.nextp := t.Successor(c.nextp, i);
    }
  }

  /** The keys of the first `n` entries. */
  ghost predicate Lists(keys: seq<int>, s: seq<Entry>, n: nat) {
    |keys| == n <= |s| && forall i :: 0 <= i < n ==> keys[i] == s[i].key
  }

  lemma ListsMore(keys: seq<int>, s: seq<Entry>, n: nat)
    ensures Lists([], s, 0)
    ensures Lists(keys, s, n) && n < |s| ==> Lists(keys + [s[n].key], s, n + 1)
  {
  }

  lemma KeysOfContents(keys: seq<int>, s: seq<Entry>)
    requires Ascending(s) && Lists(keys, s, |s|)
    ensures forall i, j :: 0 <= i < j < |keys| ==> keys[i] < keys[j]
    ensures forall k :: k in keys <==> k in Contents(s)
  {
    forall k
      ensures k in keys <==> k in Contents(s)
    {
      ContentsListed(s, Entry(k, 0));
      assert k in keys ==> exists i :: 0 <= i < |s| && s[i].key == k;
      assert Has(s, k) ==> exists i :: 0 <= i < |s| && keys[i] == k;
    }
  }

  /** Opening the list and reading it to the end yields every key once, in ascending order. */
  method ReadAll(t: RbTree) returns (keys: seq<int>)
    requires t.Valid()
    ensures Lists(keys, Entries(t.shape), |Entries(t.shape)|)
    ensures forall i, j :: 0 <= i < j < |keys| ==> keys[i] < keys[j]
    ensures forall k :: k in keys <==> k in Contents(Entries(t.shape))
  {
    hide *;
    ghost var s, n: nat := Entries(t.shape), 0;
    t.CursorAt(0);
    keys := [];
    var c := OpenList(t);
    var more, key := ReadList(t, c, 0);
    ListsMore(keys, s, 0);
    while more
      invariant t.Valid() && n <= |s| && Lists(keys, s, n) && (more <==> n < |s|)
      invariant more ==> key == s[n].key && c.nextp == t.NodeAt(n + 1)
      decreases |s| - n
    {
      ListsMore(keys, s, n);
      n := n + 1;
      keys := keys + [key];
      more, key := ReadList(t, c, n);
    }
    KeysOfContents(keys, s);
  }

  /** The non-null data pointers of a list, in order. */
  function Owned(s: seq<Entry>): seq<nat> {
    if s == [] then [] else Owned(s[..|s| - 1]) + if s[|s| - 1].data != 0 then [s[|s| - 1].data] else []
  }

  lemma FirstHasRankZero(s: seq<Entry>, key: int)
    requires Ascending(s) && s != [] && s[0].key == key
    ensures Rank(s, key) == 0 && Has(s, key)
  {
    RankSplit([], s, key);
    assert [] + s == s;
  }

  /** One entry of RB_Purge: find and delete the key just read. The cursor has already moved on to
      the second node, and the node that is freed is the first, so the cursor stays good. */
  method PurgeOne(t: RbTree, key: int, ghost nextp: Node) returns (ptr: nat)
    requires t.Valid() && Entries(t.shape) != [] && key == Entries(t.shape)[0].key && nextp == t.NodeAt(1)
    modifies t`root, t`nodes, t`shape, t.nodes
    ensures t.Valid() && t.nodes <= old(t.nodes) && nextp == t.NodeAt(0)
    ensures Entries(t.shape) == old(Entries(t.shape))[1..] && ptr == old(Entries(t.shape))[0].data
  {
    FirstHasRankZero(Entries(t.shape), key);
    hide Ascending, Has, Rank, Nodes, Entries, Contents;
    var data := t.Find(key);
    ptr := data.data;
    ghost var j := t.Delete(key);
  }

  /** The body of RB_Purge's loop, and the reading of the next key. */
  method PurgeNext(t: RbTree, c: Cursor, key: int) returns (ptr: nat, more: bool, next: int)
    requires t.Valid() && Entries(t.shape) != [] && key == Entries(t.shape)[0].key && c.nextp == t.NodeAt(1)
    modifies t`root, t`nodes, t`shape, t.nodes, c
    ensures t.Valid() && t.nodes <= old(t.nodes)
    ensures Entries(t.shape) == old(Entries(t.shape))[1..] && ptr == old(Entries(t.shape))[0].data
    ensures more <==> Entries(t.shape) != []
    ensures more ==> next == Entries(t.shape)[0].key && c.nextp == t.NodeAt(1)
  {
    hide *;
    ptr := PurgeOne(t, key, c.nextp);
    more, next := ReadList(t, c, 0);
  }

  lemma OwnedEnds(all: seq<Entry>)
    ensures all[0..] == all == all[..|all|] && Owned(all[..0]) == []
  {
  }

  lemma OwnedNext(all: seq<Entry>, k: nat)
    requires k < |all|
    ensures all[k..][1..] == all[k + 1..] && all[k..][0] == all[k]
    ensures Owned(all[..k + 1]) == if all[k].data != 0 then Owned(all[..k]) + [all[k].data] else Owned(all[..k])
  {
    assert all[..k + 1][..k] == all[..k];
  }

  /** RB_Purge up to the final rebuilding of the cache: walks a cursor, and finds, deletes and frees
      what it reads. The result lists the blocks handed to Z_Free. */
  method Purge(t: RbTree) returns (freed: seq<nat>)
    requires t.Valid()
    modifies t`root, t`nodes, t`shape, t.nodes
    ensures t.Valid() && Entries(t.shape) == [] && t.nodes <= old(t.nodes)
    ensures freed == Owned(old(Entries(t.shape)))
  {
    hide *;
    ghost var all, k: nat := Entries(t.shape), 0;
    freed := [];
    OwnedEnds(all);
    var c := OpenList(t);
    var more, key := ReadList(t, c, 0);
    while more
      invariant t.Valid() && fresh(c) && t.nodes <= old(t.nodes)
      invariant k <= |all| && Entries(t.shape) == all[k..] && freed == Owned(all[..k])
      invariant more <==> all[k..] != []
      invariant more ==> key == all[k..][0].key && c.nextp == t.NodeAt(1)
      decreases |all| - k
    {
      OwnedNext(all, k);
      k := k + 1;
      var ptr;
      ptr, more, key := PurgeNext(t, c, key);
      if ptr != 0 {
        freed := freed + [ptr];
      }
    }
  }
}
