/** The zone allocator of qcommon/common.c: all blocks in one doubly linked ring. */
module Zone {
  /** The size of `zhead_t` on a 64-bit machine. */
  const HEADER := 32

  /** What the 16 bits in which a tag is stored can hold. */
  type Tag = v: int | -0x8000 <= v < 0x8000

  function Int16(v: int): (r: Tag)
    ensures (r - v) % 0x1_0000 == 0
  {
    var w := v % 0x1_0000;
    if w < 0x8000 then w else w - 0x1_0000
  }

  predicate FitsTag(tag: int) {
    -0x8000 <= tag < 0x8000
  }

  /** `zhead_t`; `size` includes the header. */
  class Block {
    var prev: Block
    var next: Block
    var tag: Tag
    var size: int

    constructor (tag: Tag, size: int)
      ensures prev == next == this && this.tag == tag && this.size == size
    {
      prev, next := this, this;
      this.tag, this.size := tag, size;
    }

    /** The copy that realloc makes at a new place. */
    constructor Copy(z: Block)
      ensures prev == z.prev && next == z.next && tag == z.tag && size == z.size
    {
      prev, next, tag, size := z.prev, z.next, z.tag, z.size;
    }
  }

  /** What the zone says about a block. */
  datatype Item = Item(block: Block, tag: Tag, size: int)

  function Total(items: seq<Item>): int {
    if items == [] then 0 else items[0].size + Total(items[1..])
  }

  lemma {:induction false} TotalJoin(a: seq<Item>, b: seq<Item>)
    ensures Total(a + b) == Total(a) + Total(b)
    decreases |a|
  {
    if a == [] {
      assert a + b == b;
    } else {
      assert (a + b)[1..] == a[1..] + b;
      TotalJoin(a[1..], b);
    }
  }

  lemma TotalFirst(item: Item, items: seq<Item>)
    ensures Total([item] + items) == item.size + Total(items)
  {
    assert ([item] + items)[1..] == items;
  }

  lemma TotalUpdated(items: seq<Item>, k: nat, item: Item)
    requires k < |items|
    ensures Total(items[k := item]) == Total(items) - items[k].size + item.size
  {
    hide Total;
    var front, back := items[..k], items[k + 1..];
    assert items == front + ([items[k]] + back);
    assert items[k := item] == front + ([item] + back);
    TotalJoin(front, [items[k]] + back);
    TotalJoin(front, [item] + back);
    TotalFirst(items[k], back);
    TotalFirst(item, back);
  }

  lemma TotalRemoved(items: seq<Item>, k: nat)
    requires k < |items|
    ensures Total(items[..k] + items[k + 1..]) == Total(items) - items[k].size
  {
    hide Total;
    var front, back := items[..k], items[k + 1..];
    assert items == front + ([items[k]] + back);
    TotalJoin(front, [items[k]] + back);
    TotalFirst(items[k], back);
    TotalJoin(front, back);
  }

  // ---------------------------------------------------------------------------------------------
  // Rings

  function Succ(i: nat, n: nat): nat
    requires i < n
  {
    if i + 1 == n then 0 else i + 1
  }

  ghost predicate LinkedAt(ring: seq<Block>, i: nat)
    requires i < |ring|
    reads ring
  {
    var j := Succ(i, |ring|);
    ring[i].next == ring[j] && ring[j].prev == ring[i]
  }

  predicate Distinct<T(==)>(s: seq<T>) {
    forall i, j :: 0 <= i < j < |s| ==> s[i] != s[j]
  }

  /** The blocks form a ring, in this order, with no block twice. */
  ghost predicate IsRing(ring: seq<Block>)
    reads ring
  {
    ring != [] && Distinct(ring) && forall i: nat :: i < |ring| ==> LinkedAt(ring, i)
  }

  ghost function ItemsOf(blocks: seq<Block>): (r: seq<Item>)
    reads blocks
    ensures |r| == |blocks|
  {
    seq(|blocks|, i requires 0 <= i < |blocks| reads blocks => Item(blocks[i], blocks[i].tag, blocks[i].size))
  }

  /** Items depend on tags and sizes only. */
  twostate lemma SameItems(blocks: seq<Block>)
    requires forall b <- blocks :: b.tag == old(b.tag) && b.size == old(b.size)
    ensures ItemsOf(blocks) == old(ItemsOf(blocks))
  {
    assert forall i :: 0 <= i < |blocks| ==> blocks[i] in blocks;
  }

  /** Rings depend on links only. */
  twostate lemma SameRing(ring: seq<Block>)
    requires old(IsRing(ring)) && forall b <- ring :: b.next == old(b.next) && b.prev == old(b.prev)
    ensures IsRing(ring)
  {
    forall i: nat | i < |ring|
      ensures LinkedAt(ring, i)
    {
      assert old(LinkedAt(ring, i)) && ring[i] in ring && ring[Succ(i, |ring|)] in ring;
    }
  }

  lemma ItemsMore(block: Block, blocks: seq<Block>)
    ensures ItemsOf([block] + blocks) == [Item(block, block.tag, block.size)] + ItemsOf(blocks)
  {
  }

  lemma ItemsLess(blocks: seq<Block>, k: nat)
    requires k < |blocks|
    ensures ItemsOf(blocks)[k] == Item(blocks[k], blocks[k].tag, blocks[k].size)
    ensures ItemsOf(blocks[..k] + blocks[k + 1..]) == ItemsOf(blocks)[..k] + ItemsOf(blocks)[k + 1..]
  {
  }

  lemma ItemsUpdated(blocks: seq<Block>, k: nat, block: Block)
    requires k < |blocks|
    ensures ItemsOf(blocks[k := block]) == ItemsOf(blocks)[k := Item(block, block.tag, block.size)]
  {
  }

  lemma RingMore<T>(chain: T, block: T, blocks: seq<T>)
    ensures [chain, block] + ([chain] + blocks)[1..] == [chain] + ([block] + blocks)
  {
  }

  lemma RingLess<T>(chain: T, blocks: seq<T>, k: nat)
    requires k < |blocks|
    ensures ([chain] + blocks)[..k + 1] + ([chain] + blocks)[k + 2..] == [chain] + (blocks[..k] + blocks[k + 1..])
  {
  }

  lemma RingUpdated(chain: Block, blocks: seq<Block>, k: nat, block: Block)
    requires k < |blocks|
    ensures ([chain] + blocks)[k + 1 := block] == [chain] + blocks[k := block]
  {
  }

  /** A new block behind the head. */
  method LinkBehind(head: Block, z: Block, ghost ring: seq<Block>)
    requires IsRing(ring) && ring[0] == head && z !in ring
    modifies head`next, z`next, z`prev, head.next`prev
    ensures IsRing([head, z] + ring[1..])
  {
    assert LinkedAt(ring, 0);
    z.next := head.next;
    z.prev := head;
    head.next.prev := z;
    head.next := z;
    ghost var more := [head, z] + ring[1..];
    forall i: nat | i < |more|
      ensures LinkedAt(more, i)
    {
      if i > 1 {
        assert old(LinkedAt(ring, i - 1));
      }
    }
  }

  lemma DistinctWithout<T>(s: seq<T>, k: nat)
    requires k < |s| && Distinct(s)
    ensures Distinct(s[..k] + s[k + 1..]) && s[k] !in s[..k] + s[k + 1..]
  {
    var less := s[..k] + s[k + 1..];
    assert forall i :: 0 <= i < |less| ==> less[i] == s[if i < k then i else i + 1];
  }

  /** Taking the block at position `k` out. */
  method Unlink(z: Block, ghost ring: seq<Block>, ghost k: nat)
    requires IsRing(ring) && 0 < k < |ring| && ring[k] == z
    modifies z.prev`next, z.next`prev
    ensures IsRing(ring[..k] + ring[k + 1..])
  {
    assert LinkedAt(ring, k - 1) && LinkedAt(ring, k);
    z.prev.next := z.next;
    z.next.prev := z.prev;
    ghost var less := ring[..k] + ring[k + 1..];
    DistinctWithout(ring, k);
    forall i: nat | i < |less|
      ensures LinkedAt(less, i)
    {
      assert old(LinkedAt(ring, if i < k then i else i + 1));
    }
  }

  /** A block that has moved: both neighbours are told its new place. */
  method Relink(z: Block, was: Block, ghost ring: seq<Block>, ghost k: nat)
    requires IsRing(ring) && 0 < k < |ring| && ring[k] == was && z !in ring
    requires z.prev == was.prev && z.next == was.next
    modifies z.prev`next, z.next`prev
    ensures IsRing(ring[k := z])
  {
    assert LinkedAt(ring, k - 1) && LinkedAt(ring, k);
    z.prev.next := z;
    z.next.prev := z;
    ghost var now := ring[k := z];
    forall i: nat | i < |now|
      ensures LinkedAt(now, i)
    {
      assert old(LinkedAt(ring, i));
    }
  }

  // ---------------------------------------------------------------------------------------------
  // The zone

  /** The items that are not to go. */
  function Without(items: seq<Item>, gone: Item -> bool): seq<Item> {
    if items == [] then []
    else
      var last := items[|items| - 1];
      Without(items[..|items| - 1], gone) + if gone(last) then [] else [last]
  }

  /** What free-by-tag leaves: exactly the blocks that are not to go. */
  lemma {:induction false} WithoutMeaning(items: seq<Item>, gone: Item -> bool)
    ensures forall item :: item in Without(items, gone) <==> item in items && !gone(item)
    decreases |items|
  {
    if items != [] {
      var front := items[..|items| - 1];
      assert items == front + [items[|items| - 1]];
      WithoutMeaning(front, gone);
    }
  }

  function Tagged(tag: int): Item -> bool {
    (item: Item) => item.tag == tag
  }

  /** Free-by-tag leaves exactly the blocks with another tag. */
  lemma TaggedGone(items: seq<Item>, tag: int)
    ensures forall item :: item in Without(items, Tagged(tag)) <==> item in items && item.tag != tag
  {
    WithoutMeaning(items, Tagged(tag));
  }

  /** The zone while free-by-tag has looked at the first `i` of its blocks and kept `kept` of them. */
  ghost predicate Freeing(items: seq<Item>, gone: Item -> bool, i: nat, kept: nat, now: seq<Item>) {
    i <= |items| && kept == |Without(items[..i], gone)| && now == Without(items[..i], gone) + items[i..]
  }

  lemma FreeingStarts(items: seq<Item>, gone: Item -> bool)
    ensures Freeing(items, gone, 0, 0, items)
  {
  }

  lemma FreeingEnds(items: seq<Item>, gone: Item -> bool, kept: nat, now: seq<Item>)
    requires Freeing(items, gone, |items|, kept, now)
    ensures now == Without(items, gone)
  {
    assert items[..|items|] == items;
  }

  lemma DistinctTail<T>(head: T, tail: seq<T>)
    requires Distinct([head] + tail)
    ensures head !in tail && Distinct(tail)
  {
    var all := [head] + tail;
    assert all[0] == head && forall i :: 0 <= i < |tail| ==> tail[i] == all[i + 1];
  }

  /** The block at which free-by-tag then is. */
  ghost function Current(items: seq<Item>, i: nat, chain: Block): Block {
    if i < |items| then items[i].block else chain
  }

  /** One block looked at by free-by-tag. */
  lemma FreeingStep(items: seq<Item>, gone: Item -> bool, i: nat, kept: nat, now: seq<Item>, chain: Block)
    requires i < |items| && Freeing(items, gone, i, kept, now)
    ensures kept < |now| && now[kept] == items[i]
    ensures if gone(items[i]) then Freeing(items, gone, i + 1, kept, now[..kept] + now[kept + 1..])
      else Freeing(items, gone, i + 1, kept + 1, now)
    ensures (if kept + 1 < |now| then now[kept + 1].block else chain) == Current(items, i + 1, chain)
  {
    assert items[..i + 1][..i] == items[..i];
    assert items[i..] == [items[i]] + items[i + 1..];
    var w := Without(items[..i], gone);
    assert now == (w + [items[i]]) + items[i + 1..];
  }

  class Heap {
    const chain: Block
    var count: int
    var bytes: int
    ghost var blocks: seq<Block>

    ghost function Ring(): seq<Block>
      reads this`blocks
    {
      [chain] + blocks
    }

    ghost predicate Valid()
      reads this, chain, blocks
    {
      IsRing(Ring()) && count == |blocks| && bytes == Total(ItemsOf(blocks))
    }

    /** The live blocks, the last allocated first. */
    ghost function Items(): seq<Item>
      reads this`blocks, blocks
    {
      ItemsOf(blocks)
    }

    constructor ()
      ensures Valid() && Items() == [] && fresh(chain)
    {
      chain := new Block(0, 0);
      count, bytes, blocks := 0, 0, [];
    }

    lemma Neighbours(k: nat)
      requires IsRing(Ring()) && k < |Ring()|
      ensures Ring()[k].next in Ring() && Ring()[k].prev in Ring()
      ensures Ring()[k].next == if k < |blocks| then blocks[k] else chain
      ensures chain !in blocks && Distinct(blocks)
    {
      assert LinkedAt(Ring(), k) && LinkedAt(Ring(), if k == 0 then |Ring()| - 1 else k - 1);
      DistinctTail(chain, blocks);
    }

    /** The ring with a new block behind its head. */
    method PutFirst(block: Block)
      requires IsRing(Ring()) && block != chain && block !in blocks
      modifies this`blocks, chain, blocks, block`next, block`prev
      ensures IsRing(Ring()) && blocks == [block] + old(blocks)
      ensures Items() == [Item(block, block.tag, block.size)] + old(Items())
    {
      Neighbours(0);
      RingMore(chain, block, blocks);
      hide IsRing, Distinct, ItemsOf;
      ghost var was := blocks;
      LinkBehind(chain, block, Ring());
      blocks := [block] + blocks;
      SameItems(was);
      ItemsMore(block, was);
    }

    /** A new block counted and put behind the head of the chain. */
    method Link(block: Block)
      requires Valid() && block != chain && block !in blocks
      modifies this, chain, blocks, block`next, block`prev
      ensures Valid() && blocks == [block] + old(blocks)
      ensures Items() == [Item(block, block.tag, block.size)] + old(Items())
    {
      hide Total, IsRing, ItemsOf;
      TotalFirst(Item(block, block.tag, block.size), Items());
      count := count + 1;
      bytes := bytes + block.size;
      PutFirst(block);
    }

    /** Z_TagMallocRelease; null is the error for a negative size. */
    method TagMalloc(size: int, tag: int) returns (z: Block?)
      requires Valid()
      modifies this, chain, blocks
      ensures Valid() && (z == null <==> size < 0)
      ensures z == null ==> Items() == old(Items()) && blocks == old(blocks)
      ensures z != null ==> fresh(z) && blocks == [z] + old(blocks)
      ensures z != null ==> Items() == [Item(z, Int16(tag), size + HEADER)] + old(Items())
    {
      if size < 0 {
        return null;
      }
      var block := new Block(Int16(tag), size + HEADER);
      Link(block);
      z := block;
    }

    /** Z_FreeRelease. */
    method Free(z: Block, ghost k: nat)
      requires Valid() && k < |blocks| && blocks[k] == z
      modifies this, chain, blocks
      ensures Valid() && blocks == old(blocks)[..k] + old(blocks)[k + 1..]
      ensures Items() == old(Items())[..k] + old(Items())[k + 1..]
    {
      ghost var was, items := blocks, Items();
      TotalRemoved(items, k);
      Neighbours(k + 1);
      RingLess(chain, was, k);
      ItemsLess(was, k);
      hide Total, IsRing, Distinct, ItemsOf;
      Unlink(z, Ring(), k + 1);
      count := count - 1;
      bytes := bytes - z.size;
      blocks := blocks[..k] + blocks[k + 1..];
      SameItems(was);
      ItemsLess(was, k);
    }

    /** The neighbours of a block told of its new place. */
    method Replace(z: Block, place: Block, ghost k: nat)
      requires Valid() && k < |blocks| && blocks[k] == z && place !in blocks && place != chain
      requires place.prev == z.prev && place.next == z.next && place.tag == z.tag && place.size == z.size
      modifies this`blocks, chain, blocks
      ensures Valid() && blocks == old(blocks)[k := place]
      ensures place.tag == old(z.tag) && Items() == old(Items())[k := Item(place, old(z.tag), old(z.size))]
    {
      hide Total, IsRing, Distinct, ItemsOf, LinkedAt;
      ghost var was, items := blocks, Items();
      Neighbours(k + 1);
      RingUpdated(chain, was, k, place);
      ItemsLess(was, k);
      Relink(place, z, Ring(), k + 1);
      blocks := blocks[k := place];
      SameItems(was);
      ItemsUpdated(was, k, place);
      TotalUpdated(items, k, Item(place, z.tag, z.size));
    }

    /** A block copied to a new place by realloc. */
    method Move(z: Block, ghost k: nat) returns (place: Block)
      requires Valid() && k < |blocks| && blocks[k] == z
      modifies this, chain, blocks
      ensures Valid() && fresh(place) && blocks == old(blocks)[k := place]
      ensures place.tag == old(z.tag) && Items() == old(Items())[k := Item(place, old(z.tag), old(z.size))]
    {
      place := new Block.Copy(z);
      Replace(z, place, k);
    }

    method Resize(z: Block, size: int, ghost k: nat)
      requires Valid() && k < |blocks| && blocks[k] == z
      modifies this`bytes, z`size
      ensures Valid() && Items() == old(Items())[k := Item(z, z.tag, size)]
    {
      ghost var items := Items();
      Neighbours(0);
      bytes := bytes + (size - z.size);
      z.size := size;
      SameRing(Ring());
      TotalUpdated(items, k, Item(z, z.tag, size));
      assert Items() == items[k := Item(z, z.tag, size)];
    }

    /** Z_Realloc; `moved` says whether realloc found the block a new place. Null is the error for a
        negative size. */
    method Realloc(z: Block, size: int, moved: bool, ghost k: nat) returns (r: Block?)
      requires Valid() && k < |blocks| && blocks[k] == z
      modifies this, chain, blocks
      ensures Valid() && (r == null <==> size < 0)
      ensures r == null ==> Items() == old(Items()) && blocks == old(blocks)
      ensures r != null ==> (if moved then fresh(r) else r == z) && blocks == old(blocks)[k := r]
      ensures r != null ==> Items() == old(Items())[k := Item(r, old(z.tag), size + HEADER)]
    {
      if size < 0 {
        return null;
      }
      var place := z;
      if moved {
        place := Move(z, k);
      }
      Resize(place, size + HEADER, k);
      r := place;
    }

    /** One round of the loop of Z_FreeTags. */
    method FreeIfTagged(z: Block, tag: int, ghost k: nat) returns (next: Block)
      requires Valid() && k < |blocks| && blocks[k] == z
      modifies this, chain, blocks
      ensures Valid() && forall j :: 0 <= j < |blocks| ==> blocks[j] in old(blocks)
      ensures Items() == if old(Items())[k].tag == tag then old(Items())[..k] + old(Items())[k + 1..] else old(Items())
      ensures next == if k + 1 < |old(Items())| then old(Items())[k + 1].block else chain
    {
      Neighbours(k + 1);
      hide Without, IsRing, Total;
      next := z.next;
      if z.tag == tag {
        Free(z, k);
      }
    }

    lemma FirstBlock()
      requires Valid()
      ensures chain.next == if Items() == [] then chain else Items()[0].block
      ensures forall item <- Items() :: item.block != chain
    {
      Neighbours(0);
    }

    lemma TaggedIs(item: Item, tag: int)
      ensures Tagged(tag)(item) <==> item.tag == tag
    {
    }

    lemma AtBlock(items: seq<Item>, i: nat)
      requires i <= |items| && Current(items, i, chain) != chain
      ensures i < |items| && Current(items, i, chain) == items[i].block
    {
    }

    lemma BlockOfItem(k: nat)
      requires k < |Items()|
      ensures |Items()| == |blocks| && blocks[k] == Items()[k].block && blocks[k].tag == Items()[k].tag
    {
    }

    /** The block at `z` looked at. */
    method FreeNext(z: Block, tag: int, ghost items: seq<Item>, ghost i: nat, ghost kept: nat)
      returns (next: Block, ghost kept': nat)
      requires Valid() && i <= |items| && z == Current(items, i, chain) && z != chain
      requires Freeing(items, Tagged(tag), i, kept, Items())
      modifies this, chain, blocks
      ensures Valid() && next == Current(items, i + 1, chain) && Freeing(items, Tagged(tag), i + 1, kept', Items())
      ensures i < |items| && forall j :: 0 <= j < |blocks| ==> blocks[j] in old(blocks)
    {
      hide *;
      AtBlock(items, i);
      FreeingStep(items, Tagged(tag), i, kept, Items(), chain);
      BlockOfItem(kept);
      TaggedIs(items[i], tag);
      next := FreeIfTagged(z, tag, kept);
      kept' := if items[i].tag == tag then kept else kept + 1;
    }

    lemma Begins(tag: int)
      requires Valid()
      ensures chain.next == Current(Items(), 0, chain) && Freeing(Items(), Tagged(tag), 0, 0, Items())
      ensures forall item <- Items() :: item.block != chain
    {
      FirstBlock();
      FreeingStarts(Items(), Tagged(tag));
    }

    lemma AtChain(items: seq<Item>, i: nat)
      requires i <= |items| && Current(items, i, chain) == chain && forall item <- items :: item.block != chain
      ensures i == |items|
    {
    }

    lemma Ends(items: seq<Item>, tag: int, i: nat, kept: nat)
      requires i <= |items| && Current(items, i, chain) == chain && forall item <- items :: item.block != chain
      requires Freeing(items, Tagged(tag), i, kept, Items())
      ensures Items() == Without(items, Tagged(tag))
    {
      AtChain(items, i);
      FreeingEnds(items, Tagged(tag), kept, Items());
    }

    /** Z_FreeTags. */
    method FreeTags(tag: int)
      requires Valid()
      modifies this, chain, blocks
      ensures Valid() && Items() == Without(old(Items()), Tagged(tag))
      ensures forall j :: 0 <= j < |blocks| ==> blocks[j] in old(blocks)
    {
      hide *;
      ghost var items := Items();
      ghost var i: nat := 0;
      ghost var kept: nat := 0;
      Begins(tag);
      var z := chain.next;
      while z != chain
        invariant Valid() && i <= |items| && z == Current(items, i, chain)
        invariant Freeing(items, Tagged(tag), i, kept, Items())
        invariant forall j :: 0 <= j < |blocks| ==> blocks[j] in old(blocks)
        decreases |items| - i
      {
        z, kept := FreeNext(z, tag, items, i, kept);
        i := i + 1;
      }
      Ends(items, tag, i, kept);
    }

    lemma BlocksOfItems()
      ensures forall item <- Items() :: item.block in blocks
      ensures |Items()| == |blocks| && forall i :: 0 <= i < |blocks| ==> Items()[i].block == blocks[i]
    {
    }

    lemma AfterBlock(k: nat)
      requires Valid() && k < |Items()|
      ensures k < |blocks| && blocks[k] == Items()[k].block && blocks[k].tag == Items()[k].tag
      ensures blocks[k].next == if k + 1 < |Items()| then Items()[k + 1].block else chain
    {
      Neighbours(k + 1);
    }
  }

  // ---------------------------------------------------------------------------------------------
  // Tags that do not fit

  lemma {:induction false} WithoutFirst(item: Item, items: seq<Item>, gone: Item -> bool)
    ensures Without([item] + items, gone) == (if gone(item) then [] else [item]) + Without(items, gone)
    decreases |items|
  {
    var all := [item] + items;
    if items == [] {
      assert all[..0] == [];
    } else {
      assert all[..|all| - 1] == [item] + items[..|items| - 1];
      WithoutFirst(item, items[..|items| - 1], gone);
    }
  }

  lemma {:induction false} WithoutNone(items: seq<Item>, gone: Item -> bool)
    requires forall item <- items :: !gone(item)
    ensures Without(items, gone) == items
    decreases |items|
  {
    if items != [] {
      var front, last := items[..|items| - 1], items[|items| - 1];
      assert items == front + [last];
      WithoutNone(front, gone);
    }
  }

  /** A block is found by the tag it was allocated with exactly if that fits into 16 bits; a tag that
      does not fit finds no block at all. */
  lemma TagFound(z: Block, size: int, tag: int, items: seq<Item>)
    ensures Without([Item(z, Int16(tag), size)] + items, Tagged(tag))
         == if FitsTag(tag) then Without(items, Tagged(tag)) else [Item(z, Int16(tag), size)] + items
    ensures !FitsTag(tag) ==> Without(items, Tagged(tag)) == items
  {
    var item := Item(z, Int16(tag), size);
    assert Tagged(tag)(item) <==> FitsTag(tag);
    assert !FitsTag(tag) ==> forall i <- items :: !Tagged(tag)(i);
    hide *;
    WithoutFirst(item, items, Tagged(tag));
    if !FitsTag(tag) {
      WithoutNone(items, Tagged(tag));
    }
  }

  lemma NotLeft(heap: Heap, z: Block, items: seq<Item>, gone: Item -> bool)
    requires heap.Items() == Without(items, gone) && forall item <- items :: item.block != z
    ensures z !in heap.blocks
  {
    WithoutMeaning(items, gone);
    heap.BlocksOfItems();
    hide Without;
  }

  /** A caller that allocates with a tag and then frees by it: the block goes, with all others that
      carry the tag, if and only if the tag fits; otherwise nothing goes. */
  method AllocateAndFreeTags(heap: Heap, size: nat, tag: int) returns (z: Block)
    requires heap.Valid()
    modifies heap, heap.chain, heap.blocks
    ensures heap.Valid() && fresh(z) && (z in heap.blocks <==> !FitsTag(tag))
    ensures heap.Items() == if FitsTag(tag) then Without(old(heap.Items()), Tagged(tag))
                            else [Item(z, Int16(tag), size + HEADER)] + old(heap.Items())
  {
    hide *;
    ghost var items := heap.Items();
    heap.BlocksOfItems();
    z := heap.TagMalloc(size, tag);
    heap.FreeTags(tag);
    TagFound(z, size + HEADER, tag, items);
    if FitsTag(tag) {
      NotLeft(heap, z, items, Tagged(tag));
    } else {
      heap.BlockOfItem(0);
    }
  }

  /** The tag 0x10000 is stored as 0, and the block stays. */
  method WideTagStays(heap: Heap) returns (z: Block)
    requires heap.Valid()
    modifies heap, heap.chain, heap.blocks
    ensures heap.Valid() && fresh(z) && heap.Items() == [Item(z, 0, 33)] + old(heap.Items())
  {
    z := AllocateAndFreeTags(heap, 1, 0x10000);
  }
}
