/** The pool of list cells of geoip/data-pool.c: blocks that double in size, cells handed out in
    order, and the linking of all of them into one list. */
module DataPool {
  import opened Bytes
  import opened SearchTree
  import opened DataSection

  const DATA_POOL_NUM_BLOCKS := 32
  const SIZE_MAX: nat := 0xffff_ffff_ffff_ffff

  /** A pointer to a cell: its block and its place in the block. */
  datatype Ref = Ref(block: nat, slot: nat)

  datatype Cell = Cell(entry: Entry, next: Option<Ref>)

  const CLEARED := Cell(Entry(0, 0, 0, 0, 0, [], false), None)

  /** can_multiply. */
  predicate CanMultiply(max: nat, m: nat, n: nat) {
    m != 0 && n <= max / m
  }

  /** It tells whether a product of a positive number stays below the limit. */
  lemma CanMultiplyMeaning(max: nat, m: nat, n: nat)
    ensures CanMultiply(max, m, n) <==> m > 0 && m * n <= max
  {
    if m > 0 {
      var q := max / m;
      assert max == m * q + max % m;
      if n <= q {
        assert m * n <= m * q;
      } else {
        assert m * n >= m * (q + 1);
      }
    }
  }

  function Slots(block: nat, n: nat): (r: seq<Ref>)
    ensures |r| == n
  {
    seq(n, j requires 0 <= j < n => Ref(block, j))
  }

  /** All cells handed out, in order: those of the full blocks and `used` of the last. */
  ghost function Handed(sizes: seq<nat>, used: nat): seq<Ref> {
    if sizes == [] then []
    else
      var last: nat := |sizes| - 1;
      (if last == 0 then [] else Handed(sizes[..last], sizes[last - 1])) + Slots(last, used)
  }

  ghost predicate InPool(sizes: seq<nat>, r: Ref) {
    r.block < |sizes| && r.slot < sizes[r.block]
  }

  /** The cells handed out lie in the pool, and each is handed out once. */
  lemma {:induction false} HandedDistinct(sizes: seq<nat>, used: nat)
    requires sizes != [] && used <= sizes[|sizes| - 1]
    ensures forall r <- Handed(sizes, used) :: InPool(sizes, r)
    ensures forall i, j :: 0 <= i < j < |Handed(sizes, used)| ==> Handed(sizes, used)[i] != Handed(sizes, used)[j]
    decreases |sizes|
  {
    var last: nat := |sizes| - 1;
    if last > 0 {
      HandedDistinct(sizes[..last], sizes[last - 1]);
      assert forall r <- Handed(sizes[..last], sizes[last - 1]) :: r.block < last;
    }
  }

  lemma OneMore(sizes: seq<nat>, used: nat)
    requires sizes != []
    ensures Handed(sizes, used + 1) == Handed(sizes, used) + [Ref(|sizes| - 1, used)]
  {
    assert Slots(|sizes| - 1, used + 1) == Slots(|sizes| - 1, used) + [Ref(|sizes| - 1, used)];
  }

  /** The first cell of a further block. */
  lemma LastBlock(sizes: seq<nat>, used: nat)
    requires |sizes| > 1
    ensures var last: nat := |sizes| - 1;
      Handed(sizes, used) == Handed(sizes[..last], sizes[last - 1]) + Slots(last, used)
    ensures Slots(|sizes| - 1, 1) == [Ref(|sizes| - 1, 0)]
  {
  }

  lemma NewBlock(sizes: seq<nat>, size: nat)
    requires sizes != []
    ensures Handed(sizes + [size], 1) == Handed(sizes, sizes[|sizes| - 1]) + [Ref(|sizes|, 0)]
  {
    hide *;
    var more := sizes + [size];
    assert more[..|sizes|] == sizes && more[|sizes| - 1] == sizes[|sizes| - 1];
    LastBlock(more, 1);
  }

  /** The cell after a cell in the order of handing out, if there is one. */
  ghost function NextOf(sizes: seq<nat>, used: nat, r: Ref): Option<Ref>
    requires InPool(sizes, r)
  {
    if r.slot + 1 < (if r.block + 1 == |sizes| then used else sizes[r.block]) then Some(Ref(r.block, r.slot + 1))
    else if r.block + 1 < |sizes| then Some(Ref(r.block + 1, 0))
    else None
  }

  ghost predicate SizesOk(sizes: seq<nat>, used: nat) {
    && sizes != [] && (forall i :: 0 <= i < |sizes| ==> sizes[i] > 0)
    && used <= sizes[|sizes| - 1] && (|sizes| > 1 ==> used > 0)
  }

  lemma {:induction false} NextInOrder(sizes: seq<nat>, used: nat, k: nat)
    requires SizesOk(sizes, used) && k < |Handed(sizes, used)|
    ensures var order := Handed(sizes, used);
      && InPool(sizes, order[k])
      && NextOf(sizes, used, order[k]) == if k + 1 < |order| then Some(order[k + 1]) else None
    decreases |sizes|
  {
    HandedDistinct(sizes, used);
    var last: nat := |sizes| - 1;
    if last > 0 {
      var before := Handed(sizes[..last], sizes[last - 1]);
      if k < |before| {
        NextInOrder(sizes[..last], sizes[last - 1], k);
      }
    }
  }

  /** The first cell of the order is the first of the first block. */
  lemma {:induction false} FirstInOrder(sizes: seq<nat>, used: nat)
    requires SizesOk(sizes, used)
    ensures if |sizes| == 1 && used == 0 then Handed(sizes, used) == []
      else Handed(sizes, used) != [] && Handed(sizes, used)[0] == Ref(0, 0)
    decreases |sizes|
  {
    var last: nat := |sizes| - 1;
    if last > 0 {
      FirstInOrder(sizes[..last], sizes[last - 1]);
    }
  }

  function CellOf(blocks: seq<seq<Cell>>, r: Ref): Cell {
    if r.block < |blocks| && r.slot < |blocks[r.block]| then blocks[r.block][r.slot] else CLEARED
  }

  ghost function EntriesAt(blocks: seq<seq<Cell>>, order: seq<Ref>): (r: seq<Entry>)
    ensures |r| == |order|
  {
    seq(|order|, k requires 0 <= k < |order| => CellOf(blocks, order[k]).entry)
  }

  lemma EntriesMore(blocks: seq<seq<Cell>>, order: seq<Ref>, r: Ref)
    requires CellOf(blocks, r) == CLEARED
    ensures EntriesAt(blocks, order + [r]) == EntriesAt(blocks, order) + [CLEARED.entry]
  {
  }

  lemma EntriesSame(blocks: seq<seq<Cell>>, blocks': seq<seq<Cell>>, order: seq<Ref>)
    requires forall r <- order :: CellOf(blocks, r).entry == CellOf(blocks', r).entry
    ensures EntriesAt(blocks, order) == EntriesAt(blocks', order)
  {
  }

  predicate LinkedAt(blocks: seq<seq<Cell>>, order: seq<Ref>, k: nat)
    requires k < |order|
  {
    CellOf(blocks, order[k]).next == if k + 1 < |order| then Some(order[k + 1]) else None
  }

  /** The cells of the order are linked one to the next, and the last to nothing. */
  ghost predicate Linked(blocks: seq<seq<Cell>>, order: seq<Ref>) {
    forall k: nat :: k < |order| ==> LinkedAt(blocks, order, k)
  }

  /** The entries met on following the links from a cell, `n` cells long. */
  function Chain(blocks: seq<seq<Cell>>, r: Ref, n: nat): seq<Entry>
    decreases n
  {
    if n == 0 then []
    else
      var cell := CellOf(blocks, r);
      [cell.entry] + if cell.next.Some? then Chain(blocks, cell.next.value, n - 1) else []
  }

  /** Following the links of a linked pool yields all entries in the order of handing out, and then
      stops by itself. */
  lemma {:induction false} ChainIsOrder(blocks: seq<seq<Cell>>, order: seq<Ref>, k: nat, n: nat)
    requires Linked(blocks, order) && k < |order| && n >= |order| - k
    ensures Chain(blocks, order[k], n) == EntriesAt(blocks, order)[k..]
    decreases n
  {
    var all := EntriesAt(blocks, order);
    assert LinkedAt(blocks, order, k);
    assert all[k..] == [all[k]] + all[k + 1..];
    if k + 1 < |order| {
      ChainIsOrder(blocks, order, k + 1, n - 1);
    } else {
      assert all[k + 1..] == [];
    }
  }

  ghost predicate LinkOk(blocks: seq<seq<Cell>>, sizes: seq<nat>, used: nat, r: Ref) {
    InPool(sizes, r) ==> CellOf(blocks, r).next in {None, NextOf(sizes, used, r)}
  }

  /** The pool's blocks have the sizes noted for them, links lead only to the next cell, and the cells
      not handed out are as calloc left them. */
  ghost predicate PoolOk(blocks: seq<seq<Cell>>, sizes: seq<nat>, used: nat) {
    && |blocks| == |sizes| <= DATA_POOL_NUM_BLOCKS && SizesOk(sizes, used)
    && (forall i :: 0 <= i < |sizes| ==> |blocks[i]| == sizes[i])
    && (forall r :: LinkOk(blocks, sizes, used, r))
    && (forall r: Ref :: r.block + 1 == |sizes| && used <= r.slot ==> CellOf(blocks, r) == CLEARED)
  }

  lemma TakeKeeps(blocks: seq<seq<Cell>>, sizes: seq<nat>, used: nat)
    requires PoolOk(blocks, sizes, used) && used < sizes[|sizes| - 1]
    ensures PoolOk(blocks, sizes, used + 1)
  {
    var used' := used + 1;
    forall r ensures LinkOk(blocks, sizes, used', r) {
      assert LinkOk(blocks, sizes, used, r);
    }
  }

  lemma GrowKeeps(blocks: seq<seq<Cell>>, sizes: seq<nat>, used: nat, size: nat)
    requires PoolOk(blocks, sizes, used) && used == sizes[|sizes| - 1] && |sizes| < DATA_POOL_NUM_BLOCKS && size > 0
    ensures PoolOk(blocks + [seq(size, _ => CLEARED)], sizes + [size], 1)
    ensures EntriesAt(blocks + [seq(size, _ => CLEARED)], Handed(sizes, used)) == EntriesAt(blocks, Handed(sizes, used))
  {
    var blocks', sizes' := blocks + [seq(size, _ => CLEARED)], sizes + [size];
    forall r ensures LinkOk(blocks', sizes', 1, r) {
      assert LinkOk(blocks, sizes, used, r);
    }
    HandedDistinct(sizes, used);
    EntriesSame(blocks, blocks', Handed(sizes, used));
  }

  function WithCell(blocks: seq<seq<Cell>>, r: Ref, cell: Cell): seq<seq<Cell>> {
    if r.block < |blocks| && r.slot < |blocks[r.block]|
    then blocks[r.block := blocks[r.block][r.slot := cell]]
    else blocks
  }

  lemma WithCellOf(blocks: seq<seq<Cell>>, r: Ref, cell: Cell, q: Ref)
    requires r.block < |blocks| && r.slot < |blocks[r.block]|
    ensures CellOf(WithCell(blocks, r, cell), q) == if q == r then cell else CellOf(blocks, q)
  {
  }

  /** Nothing beyond the used part of the last block is handed out. */
  lemma HandedUsed(sizes: seq<nat>, used: nat)
    requires sizes != [] && used <= sizes[|sizes| - 1]
    ensures forall r <- Handed(sizes, used) :: r.block + 1 == |sizes| ==> r.slot < used
  {
    if |sizes| > 1 {
      HandedDistinct(sizes[..|sizes| - 1], sizes[|sizes| - 2]);
    }
  }

  /** One of several different cells gets another entry. */
  lemma EntrySet(blocks: seq<seq<Cell>>, order: seq<Ref>, k: nat, cell: Cell)
    requires k < |order| && order[k].block < |blocks| && order[k].slot < |blocks[order[k].block]|
    requires forall i, j :: 0 <= i < j < |order| ==> order[i] != order[j]
    ensures EntriesAt(WithCell(blocks, order[k], cell), order) == EntriesAt(blocks, order)[k := cell.entry]
  {
    var blocks' := WithCell(blocks, order[k], cell);
    forall i | 0 <= i < |order|
      ensures EntriesAt(blocks', order)[i] == EntriesAt(blocks, order)[k := cell.entry][i]
    {
      WithCellOf(blocks, order[k], cell, order[i]);
    }
  }

  lemma SetEntryKeeps(blocks: seq<seq<Cell>>, sizes: seq<nat>, used: nat, k: nat, entry: Entry)
    requires PoolOk(blocks, sizes, used) && k < |Handed(sizes, used)|
    ensures var order := Handed(sizes, used);
      var blocks' := WithCell(blocks, order[k], CellOf(blocks, order[k]).(entry := entry));
      PoolOk(blocks', sizes, used) && EntriesAt(blocks', order) == EntriesAt(blocks, order)[k := entry]
  {
    var order := Handed(sizes, used);
    var cell := CellOf(blocks, order[k]).(entry := entry);
    NextInOrder(sizes, used, k);
    HandedDistinct(sizes, used);
    HandedUsed(sizes, used);
    hide Handed;
    EntrySet(blocks, order, k, cell);
    hide EntriesAt;
    var blocks' := WithCell(blocks, order[k], cell);
    forall r
      ensures LinkOk(blocks', sizes, used, r)
    {
      assert LinkOk(blocks, sizes, used, r);
      WithCellOf(blocks, order[k], cell, r);
    }
  }

  /** All cells handed out of the blocks before `i`, and the first `j` of block `i`, have their
      links. */
  ghost predicate LinkedBefore(blocks: seq<seq<Cell>>, sizes: seq<nat>, used: nat, i: nat, j: nat) {
    forall r: Ref :: InPool(sizes, r) && (r.block < i || (r.block == i && r.slot < j)) ==>
      (r.block + 1 == |sizes| && r.slot >= used) || CellOf(blocks, r).next == NextOf(sizes, used, r)
  }

  lemma SetNextKeeps(blocks: seq<seq<Cell>>, sizes: seq<nat>, used: nat, r: Ref, next: Ref)
    requires PoolOk(blocks, sizes, used) && InPool(sizes, r) && NextOf(sizes, used, r) == Some(next)
    requires LinkedBefore(blocks, sizes, used, r.block, r.slot)
    ensures var blocks' := WithCell(blocks, r, CellOf(blocks, r).(next := Some(next)));
      && PoolOk(blocks', sizes, used)
      && EntriesAt(blocks', Handed(sizes, used)) == EntriesAt(blocks, Handed(sizes, used))
      && LinkedBefore(blocks', sizes, used, r.block, r.slot + 1)
  {
    var cell := CellOf(blocks, r).(next := Some(next));
    var blocks' := WithCell(blocks, r, cell);
    forall q
      ensures LinkOk(blocks', sizes, used, q) && CellOf(blocks', q) == if q == r then cell else CellOf(blocks, q)
    {
      assert LinkOk(blocks, sizes, used, q);
      WithCellOf(blocks, r, cell, q);
    }
    EntriesSame(blocks, blocks', Handed(sizes, used));
  }

  lemma BlockEnds(blocks: seq<seq<Cell>>, sizes: seq<nat>, used: nat, i: nat)
    requires PoolOk(blocks, sizes, used) && i < |sizes| && (i + 1 < |sizes| || used > 0)
    requires LinkedBefore(blocks, sizes, used, i, if i + 1 < |sizes| then sizes[i] else used - 1)
    ensures LinkedBefore(blocks, sizes, used, i + 1, 0)
  {
    forall r: Ref | r.block == i && i + 1 == |sizes| && r.slot + 1 == used && InPool(sizes, r)
      ensures CellOf(blocks, r).next == NextOf(sizes, used, r)
    {
      assert LinkOk(blocks, sizes, used, r);
    }
  }

  lemma AllLinked(blocks: seq<seq<Cell>>, sizes: seq<nat>, used: nat)
    requires PoolOk(blocks, sizes, used) && LinkedBefore(blocks, sizes, used, |sizes|, 0)
    ensures Linked(blocks, Handed(sizes, used))
  {
    var order := Handed(sizes, used);
    HandedUsed(sizes, used);
    forall k: nat | k < |order|
      ensures LinkedAt(blocks, order, k)
    {
      NextInOrder(sizes, used, k);
    }
  }

  /** Each block has twice as many cells as the one before. */
  predicate Doubling(sizes: seq<nat>) {
    forall i :: 0 <= i < |sizes| - 1 ==> sizes[i + 1] == 2 * sizes[i]
  }

  function Cells(sizes: seq<nat>): nat {
    if sizes == [] then 0 else Cells(sizes[..|sizes| - 1]) + sizes[|sizes| - 1]
  }

  lemma DoublesOn(sizes: seq<nat>, n: nat)
    requires sizes != [] && n == 2 * sizes[|sizes| - 1]
    ensures Doubling(sizes) ==> Doubling(sizes + [n])
  {
  }

  /** All blocks together have twice as many cells as the last, less those of the first. */
  lemma {:induction false} CapacityDoubles(sizes: seq<nat>)
    requires Doubling(sizes) && sizes != []
    ensures Cells(sizes) + sizes[0] == 2 * sizes[|sizes| - 1]
    decreases |sizes|
  {
    var front := sizes[..|sizes| - 1];
    if front == [] {
      assert Cells(front) == 0;
    } else {
      CapacityDoubles(front);
      assert sizes[|front| - 1 + 1] == 2 * sizes[|front| - 1];
    }
  }

  lemma {:induction false} HandedCount(sizes: seq<nat>, used: nat)
    requires sizes != []
    ensures |Handed(sizes, used)| == Cells(sizes[..|sizes| - 1]) + used
    decreases |sizes|
  {
    var front := sizes[..|sizes| - 1];
    if front != [] {
      HandedCount(front, sizes[|front| - 1]);
      assert front[..|front| - 1] + [front[|front| - 1]] == front;
    }
  }

  class Pool {
    var index: nat
    var size: nat
    var used: nat
    var sizes: seq<nat>
    var blocks: seq<seq<Cell>>
    const cellSize: nat

    ghost predicate Valid()
      reads this
    {
      |sizes| == index + 1 && size == sizes[index] && PoolOk(blocks, sizes, used)
    }

    ghost function Order(): seq<Ref>
      reads this`sizes, this`used
    {
      Handed(sizes, used)
    }

    /** The entries of the cells handed out, in order. */
    ghost function Entries(): (r: seq<Entry>)
      reads this
      ensures |r| == |Order()|
    {
      EntriesAt(blocks, Order())
    }

    /** data_pool_new, where it does not fail. */
    constructor (n: nat, cellSize: nat)
      requires CanMultiply(SIZE_MAX, n, cellSize)
      ensures Valid() && Order() == [] && index == 0 && size == n && this.cellSize == cellSize && sizes == [n]
    {
      this.cellSize := cellSize;
      index, size, used := 0, n, 0;
      sizes := [n];
      blocks := [seq(n, _ => CLEARED)];
    }

    /** data_pool_new fails for no cells at all, or for more than memory can number. */
    static method New(n: nat, cellSize: nat) returns (pool: Pool?)
      ensures pool == null <==> n == 0 || n * cellSize > SIZE_MAX
      ensures pool != null ==> fresh(pool) && pool.Valid() && pool.Order() == [] && pool.sizes == [n]
    {
      CanMultiplyMeaning(SIZE_MAX, n, cellSize);
      if n == 0 || !CanMultiply(SIZE_MAX, n, cellSize) {
        return null;
      }
      pool := new Pool(n, cellSize);
    }

    /** No further block can be had. */
    ghost predicate Exhausted()
      reads this`index, this`size, this`used
    {
      used == size && (index + 1 == DATA_POOL_NUM_BLOCKS || size * 2 > SIZE_MAX || size * 2 * cellSize > SIZE_MAX)
    }

    method Take()
      requires Valid() && used < size
      modifies this`used
      ensures Valid() && Order() == old(Order()) + [Ref(index, old(used))] && used == old(used) + 1
      ensures Entries() == old(Entries()) + [CLEARED.entry]
    {
      OneMore(sizes, used);
      EntriesMore(blocks, Order(), Ref(index, used));
      TakeKeeps(blocks, sizes, used);
      hide *;
      used := used + 1;
    }

    method Install(newSize: nat)
      modifies this
      ensures blocks == old(blocks) + [seq(newSize, _ => CLEARED)] && sizes == old(sizes) + [newSize]
      ensures index == old(index) + 1 && size == newSize && used == 1
    {
      blocks := blocks + [seq(newSize, _ => CLEARED)];
      sizes := sizes + [newSize];
      index := index + 1;
      size := newSize;
      used := 1;
    }

    method Grow(newSize: nat)
      requires Valid() && used == size && newSize > 0 && index + 1 < DATA_POOL_NUM_BLOCKS
      modifies this
      ensures Valid() && Order() == old(Order()) + [Ref(old(index) + 1, 0)]
      ensures Entries() == old(Entries()) + [CLEARED.entry] && sizes == old(sizes) + [newSize] && used == 1
    {
      ghost var was, order, cleared := blocks, Order(), seq(newSize, _ => CLEARED);
      NewBlock(sizes, newSize);
      GrowKeeps(blocks, sizes, used, newSize);
      EntriesMore(blocks + [cleared], order, Ref(index + 1, 0));
      assert |sizes| == index + 1;
      hide *;
      Install(newSize);
      assert Entries() == EntriesAt(was, order) + [CLEARED.entry];
    }

    lemma Sizes()
      requires Valid()
      ensures |sizes| == index + 1 && size == sizes[index] && used <= size && size > 0
      ensures Exhausted() <==>
        used == size && (index == 31 || size * 2 > 0xffff_ffff_ffff_ffff || size * 2 * cellSize > 0xffff_ffff_ffff_ffff)
      ensures Exhausted() <==>
        used == size && (index + 1 == DATA_POOL_NUM_BLOCKS || size * 2 > SIZE_MAX || size * 2 * cellSize > SIZE_MAX)
    {
    }

    /** data_pool_alloc. */
    method Alloc() returns (r: Option<Ref>)
      requires Valid()
      modifies this
      ensures Valid() && (r == None <==> old(Exhausted()))
      ensures old(Exhausted()) <==> old(used == size
        && (index == 31 || size * 2 > 0xffff_ffff_ffff_ffff || size * 2 * cellSize > 0xffff_ffff_ffff_ffff))
      ensures r == None ==> Exhausted() && Order() == old(Order()) && Entries() == old(Entries())
      ensures sizes == if r == None || old(used < size) then old(sizes) else old(sizes) + [2 * old(size)]
      ensures used == if r == None then old(used) else if old(used < size) then old(used) + 1 else 1
      ensures old(Doubling(sizes)) ==> Doubling(sizes)
      ensures r != None ==> Order() == old(Order()) + [r.value] && Entries() == old(Entries()) + [CLEARED.entry]
    {
      Sizes();
      DoublesOn(sizes, size * 2);
      hide *;
      if used < size {
        r := Some(Ref(index, used));
        Take();
        return;
      }
      var newIndex := index + 1;
      if newIndex == DATA_POOL_NUM_BLOCKS {
        return None;
      }
      CanMultiplyMeaning(SIZE_MAX, size, 2);
      CanMultiplyMeaning(SIZE_MAX, size * 2, cellSize);
      if !CanMultiply(SIZE_MAX, size, 2) {
        return None;
      }
      var newSize := size * 2;
      if !CanMultiply(SIZE_MAX, newSize, cellSize) {
        return None;
      }
      Grow(newSize);
      r := Some(Ref(newIndex, 0));
    }

    /** Writing the entry of the `k`-th cell handed out. */
    method SetEntry(r: Ref, entry: Entry, ghost k: nat)
      requires Valid() && k < |Order()| && Order()[k] == r
      modifies this`blocks
      ensures Valid() && Entries() == old(Entries())[k := entry]
    {
      NextInOrder(sizes, used, k);
      SetEntryKeeps(blocks, sizes, used, k, entry);
      hide NextOf, Handed, EntriesAt, LinkOk, CellOf, SizesOk;
      blocks := WithCell(blocks, r, CellOf(blocks, r).(entry := entry));
    }

    method GetEntry(r: Ref, ghost k: nat) returns (entry: Entry)
      requires Valid() && k < |Order()| && Order()[k] == r
      ensures entry == Entries()[k]
    {
      entry := CellOf(blocks, r).entry;
    }

    method SetNext(r: Ref, next: Ref)
      requires Valid() && InPool(sizes, r) && NextOf(sizes, used, r) == Some(next)
      requires LinkedBefore(blocks, sizes, used, r.block, r.slot)
      modifies this`blocks
      ensures Valid() && Entries() == old(Entries())
      ensures LinkedBefore(blocks, sizes, used, r.block, r.slot + 1)
    {
      SetNextKeeps(blocks, sizes, used, r, next);
      hide *;
      blocks := WithCell(blocks, r, CellOf(blocks, r).(next := Some(next)));
    }

    /** The body of the loop of data_pool_to_list: one block linked, and linked to the next. */
    method LinkBlock(i: nat)
      requires Valid() && i <= index && (index > 0 || used > 0) && LinkedBefore(blocks, sizes, used, i, 0)
      modifies this`blocks
      ensures Valid() && Entries() == old(Entries()) && LinkedBefore(blocks, sizes, used, i + 1, 0)
    {
      var n := sizes[i];
      if i == index {
        n := used;
      }
      assert n >= 1;
      hide SizesOk, Handed, EntriesAt, CellOf;
      var j := 0;
      while j < n - 1
        invariant 0 <= j <= n - 1 && Valid() && Entries() == old(Entries())
        invariant LinkedBefore(blocks, sizes, used, i, j)
      {
        SetNext(Ref(i, j), Ref(i, j + 1));
        j := j + 1;
      }
      if i < index {
        SetNext(Ref(i, n - 1), Ref(i + 1, 0));
      }
      BlockEnds(blocks, sizes, used, i);
    }

    /** data_pool_to_list: all cells handed out, linked in order; the first of them, if any. */
    method ToList() returns (r: Option<Ref>)
      requires Valid()
      modifies this`blocks
      ensures Valid() && Entries() == old(Entries()) && Linked(blocks, Order())
      ensures r == if Order() == [] then None else Some(Order()[0])
    {
      FirstInOrder(sizes, used);
      if index == 0 && used == 0 {
        return None;
      }
      var i := 0;
      while i <= index
        invariant 0 <= i <= index + 1 && Valid() && Entries() == old(Entries())
        invariant LinkedBefore(blocks, sizes, used, i, 0)
      {
        LinkBlock(i);
        i := i + 1;
      }
      AllLinked(blocks, sizes, used);
      r := Some(Ref(0, 0));
    }
  }
}
