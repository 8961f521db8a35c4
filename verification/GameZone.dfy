/** The game's share of the zone in qcommon/common.c: a list that names every block the game has
    allocated, kept beside the ring of all blocks. */
module GameZone {
  import opened Zone

  const MAGIC_SIZE := 4

  /** `z_memloc_t`. */
  class Loc {
    var address: Block?
    var size: int
    var next: Loc?

    constructor (address: Block?, size: int, next: Loc?)
      ensures this.address == address && this.size == size && this.next == next
    {
      this.address, this.size, this.next := address, size, next;
    }
  }

  ghost predicate NextAt(list: seq<Loc>, i: nat)
    requires i < |list|
    reads list
  {
    list[i].next == if i + 1 < |list| then list[i + 1] else null
  }

  ghost predicate IsList(list: seq<Loc>)
    reads list
  {
    list != [] && Distinct(list) && forall i: nat :: i < |list| ==> NextAt(list, i)
  }

  /** The entries behind the head name these blocks. */
  ghost predicate Names(locs: seq<Loc>, names: seq<Block>)
    reads locs
  {
    |locs| == |names| && forall i :: 0 <= i < |locs| ==> locs[i].address == names[i]
  }

  lemma NamesLess(locs: seq<Loc>, names: seq<Block>, i: nat)
    requires Names(locs, names) && i < |locs|
    ensures Names(locs[..i] + locs[i + 1..], names[..i] + names[i + 1..])
  {
  }

  method PushLoc(head: Loc, loc: Loc, ghost list: seq<Loc>)
    requires IsList(list) && list[0] == head && loc !in list && loc.next == head.next
    modifies head`next
    ensures IsList([head, loc] + list[1..])
  {
    assert NextAt(list, 0);
    head.next := loc;
    ghost var more := [head, loc] + list[1..];
    forall i: nat | i < |more|
      ensures NextAt(more, i)
    {
      if i > 1 {
        assert old(NextAt(list, i - 1));
      }
    }
  }

  method DropLoc(last: Loc, loc: Loc, ghost list: seq<Loc>, ghost k: nat)
    requires IsList(list) && k + 1 < |list| && list[k] == last && list[k + 1] == loc
    modifies last`next
    ensures IsList(list[..k + 1] + list[k + 2..])
  {
    assert NextAt(list, k + 1);
    last.next := loc.next;
    ghost var less := list[..k + 1] + list[k + 2..];
    DistinctWithout(list, k + 1);
    forall i: nat | i < |less|
      ensures NextAt(less, i)
    {
      assert old(NextAt(list, if i <= k then i else i + 1));
    }
  }

  datatype Freed = Done | Ignored | NotFound

  /** What a request comes to: an error, a block, or a block that is cleared with a negative length. */
  datatype Grant = Refused | Given(block: Block) | Overruns(block: Block)

  function GameTagged(tag: int, names: seq<Block>): Item -> bool {
    (item: Item) => item.tag == tag && item.block in names
  }

  lemma GameTaggedGone(items: seq<Item>, tag: int, names: seq<Block>)
    ensures forall item :: item in Without(items, GameTagged(tag, names)) <==>
      item in items && !(item.tag == tag && item.block in names)
  {
    WithoutMeaning(items, GameTagged(tag, names));
  }

  lemma SamePlace<T>(s: seq<T>, j: nat, k: nat)
    requires Distinct(s) && j < |s| && k < |s| && s[j] == s[k]
    ensures j == k
  {
  }

  lemma OthersStay(blocks: seq<Block>, k: nat, names: seq<Block>, i: nat)
    requires k < |blocks| && i < |names| && names[i] == blocks[k] && Distinct(names) && forall n <- names :: n in blocks
    ensures forall j :: 0 <= j < |names| && j != i ==> names[j] in blocks[..k] + blocks[k + 1..]
  {
    forall j | 0 <= j < |names| && j != i
      ensures names[j] in blocks[..k] + blocks[k + 1..]
    {
      assert names[j] in blocks && names[j] != blocks[k];
      assert blocks == blocks[..k] + [blocks[k]] + blocks[k + 1..];
    }
  }

  lemma DistinctMore<T>(head: T, tail: seq<T>)
    requires Distinct(tail) && head !in tail
    ensures Distinct([head] + tail)
  {
  }

  class GameHeap {
    const heap: Heap
    const games: Loc
    var buggy: int
    ghost var locs: seq<Loc>
    ghost var names: seq<Block>

    ghost predicate Valid()
      reads this, games, locs, heap, heap.chain, heap.blocks
    {
      && heap.Valid() && IsList([games] + locs) && Names(locs, names)
      && Distinct(names) && forall b <- names :: b in heap.blocks
    }

    lemma Apart()
      requires Valid()
      ensures heap.Valid() && IsList([games] + locs) && Names(locs, names)
      ensures Distinct(names) && forall b <- names :: b in heap.blocks
    {
    }

    lemma Together()
      requires heap.Valid() && IsList([games] + locs) && Names(locs, names)
      requires Distinct(names) && forall b <- names :: b in heap.blocks
      ensures Valid()
    {
    }

    constructor ()
      ensures Valid() && names == [] && heap.Items() == [] && buggy == 0
      ensures fresh(heap) && fresh(heap.chain) && fresh(games)
    {
      heap := new Heap();
      games := new Loc(null, 0, null);
      buggy, locs, names := 0, [], [];
    }

    /** The new block is put at the front of the game's list. */
    method Record(b: Block, size: int, ghost was: seq<Block>)
      requires heap.Valid() && IsList([games] + locs) && Names(locs, names) && Distinct(names)
      requires heap.blocks == [b] + was && (forall n <- names :: n in was) && b !in was
      modifies this`locs, this`names, games
      ensures Valid() && names == [b] + old(names)
    {
      hide IsList, Distinct;
      var loc := new Loc(b, size, games.next);
      RingMore(games, loc, locs);
      PushLoc(games, loc, [games] + locs);
      DistinctMore(b, names);
      locs, names := [loc] + locs, [b] + names;
    }

    /** Z_TagMallocGame once the size is settled. */
    method Grab(n: int, tag: int) returns (r: Grant)
      requires Valid() && n != 0
      modifies this`locs, this`names, games, heap, heap.chain, heap.blocks
      ensures Valid()
      ensures (r.Refused? <==> n + MAGIC_SIZE < 0) && (r.Overruns? <==> -MAGIC_SIZE <= n < 0)
      ensures r.Refused? ==> heap.Items() == old(heap.Items())
      ensures !r.Refused? ==> fresh(r.block)
      ensures !r.Refused? ==>
        heap.Items() == [Item(r.block, Int16(tag), n + MAGIC_SIZE + HEADER)] + old(heap.Items())
      ensures names == if r.Given? then [r.block] + old(names) else old(names)
    {
      hide Distinct, IsList, Names, Heap.Valid, Heap.Items;
      ghost var was := heap.blocks;
      var b := heap.TagMalloc(n + MAGIC_SIZE, tag);
      if b == null {
        return Refused;
      }
      if n < 0 {
        return Overruns(b);
      }
      Record(b, n, was);
      return Given(b);
    }

    /** Z_TagMallocGame. An empty request is an error, or with the buggy-game setting, which multiplies
        sizes, one byte. A size down to -4 passes the size test, because the room for the magic number
        is added first; then memset is called with a negative length, and the list never gets the
        block. */
    method TagMallocGame(size: int, tag: int) returns (r: Grant)
      requires Valid()
      modifies this`locs, this`names, games, heap, heap.chain, heap.blocks
      ensures Valid()
      ensures var n := if buggy == 0 then size else if size * buggy == 0 then 1 else size * buggy;
        && (r.Refused? <==> (buggy == 0 && size == 0) || n + MAGIC_SIZE < 0)
        && (r.Overruns? <==> -MAGIC_SIZE <= n < 0)
        && (r.Refused? ==> heap.Items() == old(heap.Items()))
        && (!r.Refused? ==> fresh(r.block))
        && (!r.Refused? ==> heap.Items() == [Item(r.block, Int16(tag), n + MAGIC_SIZE + HEADER)] + old(heap.Items()))
        && names == if r.Given? then [r.block] + old(names) else old(names)
    {
      hide *;
      var n := size;
      if buggy != 0 {
        n := n * buggy;
      }
      if n == 0 {
        if buggy == 0 {
          return Refused;
        }
        n := 1;
      }
      r := Grab(n, tag);
    }

    /** The block just freed is taken off the game's list. */
    method Forget(last: Loc, loc: Loc, ghost i: nat)
      requires heap.Valid() && IsList([games] + locs) && Names(locs, names) && Distinct(names)
      requires i < |locs| && ([games] + locs)[i] == last && locs[i] == loc
      requires forall j :: 0 <= j < |names| && j != i ==> names[j] in heap.blocks
      modifies this`locs, this`names, last`next
      ensures Valid() && names == old(names)[..i] + old(names)[i + 1..] && locs == old(locs)[..i] + old(locs)[i + 1..]
    {
      hide IsList, Distinct, Heap.Valid, NextAt;
      NamesLess(locs, names, i);
      RingLess(games, locs, i);
      DistinctWithout(names, i);
      ghost var fewer := locs[..i] + locs[i + 1..];
      ghost var fewerNames := names[..i] + names[i + 1..];
      DropLoc(last, loc, [games] + locs, i);
      locs, names := fewer, fewerNames;
    }

    /** The body of the loop of Z_FreeGame, once the block is found in the list. */
    method Release(buf: Block, last: Loc, loc: Loc, ghost i: nat) returns (ghost k: nat)
      requires Valid() && i < |locs| && ([games] + locs)[i] == last && locs[i] == loc && names[i] == buf
      modifies this`locs, this`names, last`next, heap, heap.chain, heap.blocks
      ensures Valid() && names == old(names)[..i] + old(names)[i + 1..] && locs == old(locs)[..i] + old(locs)[i + 1..]
      ensures k < |old(heap.blocks)| && old(heap.blocks)[k] == buf
      ensures heap.blocks == old(heap.blocks)[..k] + old(heap.blocks)[k + 1..]
      ensures heap.Items() == old(heap.Items())[..k] + old(heap.Items())[k + 1..]
    {
      assert buf in heap.blocks;
      k :| k < |heap.blocks| && heap.blocks[k] == buf;
      OthersStay(heap.blocks, k, names, i);
      heap.Free(buf, k);
      hide IsList, Names, Distinct;
      Forget(last, loc, i);
    }

    /** The state in which Z_FreeTagsGame is after `i` blocks of the chain: the list has lost exactly
        the freed blocks, and so far every block with the tag was the game's. */
    ghost predicate FreeingGame(items: seq<Item>, tag: int, names0: seq<Block>, i: nat, kept: nat)
      reads this, games, locs, heap, heap.chain, heap.blocks
    {
      && Valid() && Freeing(items, GameTagged(tag, names0), i, kept, heap.Items())
      && (forall b <- names :: b in names0)
      && (forall b <- names0 :: b in heap.blocks ==> b in names)
      && (buggy == 0 ==> forall j :: 0 <= j < i ==> items[j].tag == tag ==> items[j].block in names0)
    }

    lemma Freed(items: seq<Item>, tag: int, names0: seq<Block>, kept: nat)
      requires FreeingGame(items, tag, names0, |items|, kept)
      ensures Valid() && heap.Items() == Without(items, GameTagged(tag, names0))
      ensures forall b :: b in names <==> b in names0 && b in heap.blocks
      ensures buggy != 0 || forall item <- items :: item.tag == tag ==> item.block in names0
    {
      FreeingEnds(items, GameTagged(tag, names0), kept, heap.Items());
    }

    /** Z_FreeGame. A block that the list does not name is an error, or with the buggy-game setting
        ignored. */
    method FreeGame(buf: Block) returns (r: Freed, ghost a: nat, ghost k: nat)
      requires Valid()
      modifies this`locs, this`names, games, locs, heap, heap.chain, heap.blocks
      ensures Valid()
      ensures r == Done <==> buf in old(names)
      ensures r != Done ==> (r == NotFound <==> buggy == 0) && heap.Items() == old(heap.Items())
      ensures r != Done ==> names == old(names) && heap.blocks == old(heap.blocks)
      ensures forall j :: 0 <= j < |locs| ==> locs[j] in old(locs)
      ensures r == Done ==>
        && a < |old(names)| && old(names)[a] == buf && names == old(names)[..a] + old(names)[a + 1..]
        && k < |old(heap.blocks)| && old(heap.blocks)[k] == buf
        && heap.Items() == old(heap.Items())[..k] + old(heap.Items())[k + 1..]
        && heap.blocks == old(heap.blocks)[..k] + old(heap.blocks)[k + 1..]
    {
      ghost var list := [games] + locs;
      var last := games;
      var loc := games;
      ghost var i: nat := 0;
      assert NextAt(list, 0);
      while loc.next != null
        invariant i < |list| && loc == last == list[i] && forall j :: 0 <= j < i ==> names[j] != buf
        decreases |list| - i
      {
        assert NextAt(list, i);
        loc := loc.next;
        if buf == loc.address {
          a := i;
          k := Release(buf, last, loc, i);
          r := Done;
          return;
        }
        last := loc;
        i := i + 1;
      }
      assert NextAt(list, i);
      r, a, k := if buggy != 0 then Ignored else NotFound, 0, 0;
    }

    lemma Parts(items: seq<Item>, tag: int, names0: seq<Block>, i: nat, kept: nat)
      requires FreeingGame(items, tag, names0, i, kept) && i < |items|
      ensures Valid() && heap.Valid() && IsRing(heap.Ring()) && Distinct(heap.blocks) && Distinct(names)
      ensures Freeing(items, GameTagged(tag, names0), i, kept, heap.Items())
      ensures (forall b <- names :: b in names0) && (forall b <- names0 :: b in heap.blocks ==> b in names)
      ensures buggy == 0 ==> forall j :: 0 <= j < i ==> items[j].tag == tag ==> items[j].block in names0
      ensures GameTagged(tag, names0)(items[i]) <==> items[i].tag == tag && items[i].block in names0
    {
      heap.Neighbours(0);
    }

    /** The block stays. */
    lemma Kept(items: seq<Item>, tag: int, names0: seq<Block>, i: nat, kept: nat)
      requires Valid() && i < |items| && Freeing(items, GameTagged(tag, names0), i + 1, kept + 1, heap.Items())
      requires (forall b <- names :: b in names0) && (forall b <- names0 :: b in heap.blocks ==> b in names)
      requires buggy == 0 ==> forall j :: 0 <= j < i ==> items[j].tag == tag ==> items[j].block in names0
      requires buggy == 0 ==> items[i].tag != tag
      ensures FreeingGame(items, tag, names0, i + 1, kept + 1)
    {
      hide Freeing, Valid;
    }

    /** The block is gone, from the zone and from the list. */
    lemma Gone(items: seq<Item>, tag: int, names0: seq<Block>, i: nat, kept: nat,
               wasNames: seq<Block>, wasBlocks: seq<Block>, a: nat, k: nat)
      requires Valid() && i < |items| && items[i].block in names0
      requires Freeing(items, GameTagged(tag, names0), i + 1, kept, heap.Items())
      requires buggy == 0 ==> forall j :: 0 <= j < i ==> items[j].tag == tag ==> items[j].block in names0
      requires (forall b <- wasNames :: b in names0) && (forall b <- names0 :: b in wasBlocks ==> b in wasNames)
      requires Distinct(wasBlocks) && a < |wasNames| && k < |wasBlocks| && wasNames[a] == wasBlocks[k]
      requires names == wasNames[..a] + wasNames[a + 1..] && heap.blocks == wasBlocks[..k] + wasBlocks[k + 1..]
      ensures FreeingGame(items, tag, names0, i + 1, kept)
    {
      hide Freeing, Valid;
      DistinctWithout(wasBlocks, k);
      forall b | b in names0 && b in heap.blocks
        ensures b in names
      {
        assert b in wasBlocks && b != wasBlocks[k];
        assert b in wasNames && wasNames == wasNames[..a] + [wasNames[a]] + wasNames[a + 1..];
      }
    }

    /** A block with the tag is freed, if it is the game's. */
    method FreeTagged(z: Block, tag: int, ghost items: seq<Item>, ghost names0: seq<Block>,
                      ghost i: nat, ghost kept: nat)
      returns (ghost kept': nat, ok: bool)
      requires FreeingGame(items, tag, names0, i, kept) && i < |items| && z == items[i].block && items[i].tag == tag
      requires kept < |heap.blocks| && heap.blocks[kept] == z
      modifies this`locs, this`names, games, locs, heap, heap.chain, heap.blocks
      ensures ok ==> FreeingGame(items, tag, names0, i + 1, kept')
      ensures !ok ==> Valid() && buggy == 0 && items[i].block !in names0
      ensures forall j :: 0 <= j < |locs| ==> locs[j] in old(locs)
      ensures forall j :: 0 <= j < |heap.blocks| ==> heap.blocks[j] in old(heap.blocks)
    {
      hide *;
      Parts(items, tag, names0, i, kept);
      FreeingStep(items, GameTagged(tag, names0), i, kept, heap.Items(), heap.chain);
      ghost var wasNames, wasBlocks := names, heap.blocks;
      kept', ok := kept + 1, true;
      var r;
      ghost var a, k;
      r, a, k := FreeGame(z);
      if r == NotFound {
        ok := false;
      } else if r == Ignored {
        Kept(items, tag, names0, i, kept);
      } else {
        kept' := kept;
        SamePlace(wasBlocks, k, kept);
        Gone(items, tag, names0, i, kept, wasNames, wasBlocks, a, k);
      }
    }

    /** One round of the loop of Z_FreeTagsGame. */
    method FreeNextGame(z: Block, tag: int, ghost items: seq<Item>, ghost names0: seq<Block>,
                        ghost i: nat, ghost kept: nat)
      returns (next: Block, ghost kept': nat, ok: bool)
      requires FreeingGame(items, tag, names0, i, kept) && i < |items| && z == items[i].block
      modifies this`locs, this`names, games, locs, heap, heap.chain, heap.blocks
      ensures ok ==> FreeingGame(items, tag, names0, i + 1, kept') && next == Current(items, i + 1, heap.chain)
      ensures !ok ==> Valid() && buggy == 0 && items[i].tag == tag && items[i].block !in names0
      ensures forall j :: 0 <= j < |locs| ==> locs[j] in old(locs)
      ensures forall j :: 0 <= j < |heap.blocks| ==> heap.blocks[j] in old(heap.blocks)
    {
      hide *;
      Parts(items, tag, names0, i, kept);
      FreeingStep(items, GameTagged(tag, names0), i, kept, heap.Items(), heap.chain);
      heap.AfterBlock(kept);
      next := z.next;
      kept', ok := kept + 1, true;
      if z.tag == tag {
        kept', ok := FreeTagged(z, tag, items, names0, i, kept);
      } else {
        Kept(items, tag, names0, i, kept);
      }
    }

    lemma Begins(tag: int)
      requires Valid()
      ensures FreeingGame(heap.Items(), tag, names, 0, 0)
      ensures heap.chain.next == Current(heap.Items(), 0, heap.chain)
      ensures forall item <- heap.Items() :: item.block != heap.chain
    {
      heap.FirstBlock();
      FreeingStarts(heap.Items(), GameTagged(tag, names));
    }

    /** Z_FreeTagsGame; false is the error for a block with the tag that is not the game's. */
    method FreeTagsGame(tag: int) returns (ok: bool)
      requires Valid()
      modifies this`locs, this`names, games, locs, heap, heap.chain, heap.blocks
      ensures Valid()
      ensures ok <==> buggy != 0 || forall item <- old(heap.Items()) :: item.tag == tag ==> item.block in old(names)
      ensures ok ==> heap.Items() == Without(old(heap.Items()), GameTagged(tag, old(names)))
      ensures ok ==> forall b :: b in names <==> b in old(names) && b in heap.blocks
    {
      hide *;
      ghost var items, names0 := heap.Items(), names;
      ghost var i: nat, kept: nat := 0, 0;
      Begins(tag);
      var z := heap.chain.next;
      while z != heap.chain
        invariant i <= |items| && z == Current(items, i, heap.chain)
        invariant FreeingGame(items, tag, names0, i, kept)
        invariant forall j :: 0 <= j < |locs| ==> locs[j] in old(locs)
        invariant forall j :: 0 <= j < |heap.blocks| ==> heap.blocks[j] in old(heap.blocks)
        decreases |items| - i
      {
        heap.AtBlock(items, i);
        z, kept, ok := FreeNextGame(z, tag, items, names0, i, kept);
        if !ok {
          return;
        }
        i := i + 1;
      }
      heap.AtChain(items, i);
      Freed(items, tag, names0, kept);
      ok := true;
    }
  }

  // The engine's own calls leave the game's list right, as long as they keep off the game's blocks.

  method EngineMalloc(g: GameHeap, size: int, tag: int) returns (z: Block?)
    requires g.Valid()
    modifies g.heap, g.heap.chain, g.heap.blocks
    ensures g.Valid() && g.names == old(g.names) && (z == null <==> size < 0)
    ensures z == null ==> g.heap.Items() == old(g.heap.Items())
    ensures z != null ==> z !in g.names && g.heap.Items() == [Item(z, Int16(tag), size + HEADER)] + old(g.heap.Items())
  {
    z := g.heap.TagMalloc(size, tag);
  }

  method EngineFree(g: GameHeap, z: Block, ghost k: nat)
    requires g.Valid() && k < |g.heap.blocks| && g.heap.blocks[k] == z && z !in g.names
    modifies g.heap, g.heap.chain, g.heap.blocks
    ensures g.Valid() && g.names == old(g.names)
    ensures g.heap.Items() == old(g.heap.Items())[..k] + old(g.heap.Items())[k + 1..]
  {
    ghost var was := g.heap.blocks;
    assert was == was[..k] + [was[k]] + was[k + 1..];
    g.heap.Free(z, k);
  }

  method EngineRealloc(g: GameHeap, z: Block, size: int, moved: bool, ghost k: nat) returns (r: Block?)
    requires g.Valid() && k < |g.heap.blocks| && g.heap.blocks[k] == z && z !in g.names
    modifies g.heap, g.heap.chain, g.heap.blocks
    ensures g.Valid() && g.names == old(g.names)
    ensures size >= 0 ==> r != null && g.heap.Items() == old(g.heap.Items())[k := Item(r, old(z.tag), size + HEADER)]
    ensures size < 0 ==> r == null && g.heap.Items() == old(g.heap.Items())
  {
    ghost var was := g.heap.blocks;
    r := g.heap.Realloc(z, size, moved, k);
    forall b | b in g.names
      ensures b in g.heap.blocks
    {
      var j :| 0 <= j < |was| && was[j] == b;
      assert r != null ==> g.heap.blocks[j] == b;
    }
  }

  lemma StillHeld(heap: Heap, names: seq<Block>)
    requires forall b <- names :: exists item :: item in heap.Items() && item.block == b
    ensures forall b <- names :: b in heap.blocks
  {
    heap.BlocksOfItems();
  }

  /** The blocks named in the list are all among those that free-by-tag leaves. */
  lemma StayListed(items: seq<Item>, blocks: seq<Block>, names: seq<Block>, tag: int)
    requires |items| == |blocks| && forall i :: 0 <= i < |items| ==> items[i].block == blocks[i]
    requires (forall b <- names :: b in blocks) && forall item <- items :: item.tag == tag ==> item.block !in names
    ensures forall b <- names :: exists item :: item in Without(items, Tagged(tag)) && item.block == b
  {
    WithoutMeaning(items, Tagged(tag));
    forall b | b in names
      ensures exists item :: item in Without(items, Tagged(tag)) && item.block == b
    {
      var i :| 0 <= i < |blocks| && blocks[i] == b;
      assert items[i] in items;
    }
  }

  method EngineFreeTags(g: GameHeap, tag: int)
    requires g.Valid() && forall item <- g.heap.Items() :: item.tag == tag ==> item.block !in g.names
    modifies g.heap, g.heap.chain, g.heap.blocks
    ensures g.Valid() && g.names == old(g.names)
    ensures g.heap.Items() == Without(old(g.heap.Items()), Tagged(tag))
  {
    hide *;
    ghost var items, names := g.heap.Items(), g.names;
    g.Apart();
    g.heap.BlocksOfItems();
    StayListed(items, g.heap.blocks, names, tag);
    g.heap.FreeTags(tag);
    StillHeld(g.heap, names);
    g.Together();
  }

  /** A request of -2 bytes is such an overrun. */
  method NegativeRequest(g: GameHeap) returns (r: Grant)
    requires g.Valid() && g.buggy == 0
    modifies g`locs, g`names, g.games, g.heap, g.heap.chain, g.heap.blocks
    ensures g.Valid() && r.Overruns? && g.names == old(g.names)
    ensures g.heap.Items() == [Item(r.block, 0, 34)] + old(g.heap.Items())
  {
    r := g.TagMallocGame(-2, 0);
  }
}
