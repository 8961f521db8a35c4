/** The three walkers over the data section of geoip/maxminddb.c as functions on its bytes, and the
    trees that the bytes stand for. */
module DataTree {
  import opened Bytes
  import opened SearchTree
  import opened DataSection

  const MAXIMUM_DATA_STRUCTURE_DEPTH := 512

  datatype Tree =
    | Scalar(entry: Entry)
    | Pointer(entry: Entry, target: Tree)
    | Container(entry: Entry, items: Items)

  /** The elements of an array, or the keys and values of a map in turn. */
  datatype Items = Nil | More(head: Tree, tail: Items)

  function Count(items: Items): nat {
    match items
    case Nil => 0
    case More(_, tail) => 1 + Count(tail)
  }

  predicate IsContainer(e: Entry) {
    e.kind == TYPE_MAP || e.kind == TYPE_ARRAY
  }

  function Elements(e: Entry): nat {
    if e.kind == TYPE_MAP then 2 * e.size else e.size
  }

  /** Where the next entry starts behind a value. */
  function EndOf(t: Tree): nat
    decreases t
  {
    match t
    case Scalar(e) => e.next
    case Pointer(e, _) => e.next
    case Container(e, items) => EndOfItems(e.next, items)
  }

  function EndOfItems(start: nat, items: Items): nat
    decreases items
  {
    match items
    case Nil => start
    case More(head, tail) => EndOfItems(EndOf(head), tail)
  }

  /** The bytes at `offset` hold the tree; pointers never point to pointers. */
  ghost predicate Denotes(s: seq<byte>, offset: nat, t: Tree)
    requires SectionOk(s)
    decreases t
  {
    && Decode(s, offset) == Some(t.entry)
    && match t
       case Scalar(e) => e.kind != TYPE_POINTER && !IsContainer(e)
       case Pointer(e, target) => e.kind == TYPE_POINTER && !target.Pointer? && Denotes(s, e.pointer, target)
       case Container(e, items) => IsContainer(e) && Count(items) == Elements(e) && DenoteItems(s, e.next, items)
  }

  ghost predicate DenoteItems(s: seq<byte>, offset: nat, items: Items)
    requires SectionOk(s)
    decreases items
  {
    match items
    case Nil => true
    case More(head, tail) => Denotes(s, offset, head) && DenoteItems(s, EndOf(head), tail)
  }

  /** The bytes at an offset hold one tree at most. */
  lemma {:induction false} DenotesOne(s: seq<byte>, offset: nat, t: Tree, u: Tree)
    requires SectionOk(s) && Denotes(s, offset, t) && Denotes(s, offset, u)
    ensures t == u
    decreases t
  {
    match t
    case Scalar(_) =>
    case Pointer(e, target) => DenotesOne(s, e.pointer, target, u.target);
    case Container(e, items) => DenoteOneItems(s, e.next, items, u.items);
  }

  lemma {:induction false} DenoteOneItems(s: seq<byte>, offset: nat, a: Items, b: Items)
    requires SectionOk(s) && DenoteItems(s, offset, a) && DenoteItems(s, offset, b) && Count(a) == Count(b)
    ensures a == b
    decreases a
  {
    if a.More? {
      DenotesOne(s, offset, a.head, b.head);
      DenoteOneItems(s, EndOf(a.head), a.tail, b.tail);
    }
  }

  lemma {:induction false} EndWithin(s: seq<byte>, offset: nat, t: Tree)
    requires SectionOk(s) && Denotes(s, offset, t)
    ensures offset < t.entry.next <= EndOf(t) <= |s|
    decreases t
  {
    if t.Container? {
      EndOfItemsWithin(s, t.entry.next, t.items);
    }
  }

  lemma {:induction false} EndOfItemsWithin(s: seq<byte>, offset: nat, items: Items)
    requires SectionOk(s) && DenoteItems(s, offset, items) && offset <= |s|
    ensures offset <= EndOfItems(offset, items) <= |s|
    decreases items
  {
    if items.More? {
      EndWithin(s, offset, items.head);
      EndOfItemsWithin(s, EndOf(items.head), items.tail);
    }
  }

  // ---------------------------------------------------------------------------------------------
  // Skipping

  /** skip_map_or_array: the offset behind a decoded entry with all its elements. Keys of maps are
      decoded but not skipped over. */
  function Skip(s: seq<byte>, e: Entry): (r: Option<nat>)
    requires SectionOk(s) && e.next <= |s|
    ensures r.Some? ==> e.next <= r.value <= |s|
    decreases |s| - e.next, e.size + 1
  {
    if e.kind == TYPE_MAP then SkipItems(s, e.next, e.size, true)
    else if e.kind == TYPE_ARRAY then SkipItems(s, e.next, e.size, false)
    else Some(e.next)
  }

  /** `n` elements, each with a key in front if they are those of a map. */
  function SkipItems(s: seq<byte>, offset: nat, n: nat, keyed: bool): (r: Option<nat>)
    requires SectionOk(s) && offset <= |s|
    ensures r.Some? ==> offset <= r.value <= |s|
    decreases |s| - offset, n
  {
    if n == 0 then Some(offset)
    else
      var key := if keyed then Decode(s, offset) else None;
      if keyed && key.None? then None
      else
        match Decode(s, if keyed then key.value.next else offset)
        case None => None
        case Some(e) =>
          match Skip(s, e)
          case None => None
          case Some(next) => SkipItems(s, next, n - 1, keyed)
  }

  /** No key of a map in the value itself is a container. */
  ghost predicate PlainKeys(t: Tree) {
    t.Container? ==> PlainItems(t.items, t.entry.kind == TYPE_MAP)
  }

  ghost predicate PlainItems(items: Items, keyed: bool)
    decreases items
  {
    match items
    case Nil => true
    case More(head, tail) =>
      if keyed && tail.More? then !head.Container? && PlainKeys(tail.head) && PlainItems(tail.tail, true)
      else PlainKeys(head) && PlainItems(tail, keyed)
  }

  lemma SkipStep(s: seq<byte>, offset: nat, n: nat, keyed: bool, e: Entry, next: nat)
    requires SectionOk(s) && offset <= |s| && n > 0 && (keyed ==> Decode(s, offset).Some?)
    requires Decode(s, if keyed then Decode(s, offset).value.next else offset) == Some(e) && Skip(s, e) == Some(next)
    ensures SkipItems(s, offset, n, keyed) == SkipItems(s, next, n - 1, keyed)
  {
  }

  /** The first element of a list, behind its key if it has one, and the rest. */
  lemma FirstElement(s: seq<byte>, offset: nat, items: Items, n: nat, keyed: bool)
    returns (at: nat, value: Tree, rest: Items)
    requires SectionOk(s) && DenoteItems(s, offset, items) && PlainItems(items, keyed)
    requires n > 0 && Count(items) == if keyed then 2 * n else n
    ensures keyed ==> Decode(s, offset).Some? && Decode(s, offset).value.next == at
    ensures !keyed ==> at == offset
    ensures value < items && rest < items && Denotes(s, at, value) && PlainKeys(value)
    ensures DenoteItems(s, EndOf(value), rest) && PlainItems(rest, keyed)
    ensures Count(rest) == (if keyed then 2 * (n - 1) else n - 1)
    ensures EndOfItems(offset, items) == EndOfItems(EndOf(value), rest)
  {
    assert items.More? && (keyed ==> items.tail.More?);
    at := if keyed then EndOf(items.head) else offset;
    value := if keyed then items.tail.head else items.head;
    rest := if keyed then items.tail.tail else items.tail;
  }

  lemma DenotedEntry(s: seq<byte>, offset: nat, t: Tree)
    requires SectionOk(s) && Denotes(s, offset, t)
    ensures Decode(s, offset) == Some(t.entry)
  {
  }

  /** Skipping a value ends where its tree ends. */
  lemma {:induction false} SkipIsEnd(s: seq<byte>, offset: nat, t: Tree)
    requires SectionOk(s) && Denotes(s, offset, t) && PlainKeys(t)
    ensures Skip(s, t.entry) == Some(EndOf(t))
    decreases t
  {
    if t.Container? {
      SkipItemsIsEnd(s, t.entry.next, t.items, t.entry.size, t.entry.kind == TYPE_MAP);
    }
  }

  lemma {:induction false} SkipItemsIsEnd(s: seq<byte>, offset: nat, items: Items, n: nat, keyed: bool)
    requires SectionOk(s) && DenoteItems(s, offset, items) && PlainItems(items, keyed) && offset <= |s|
    requires Count(items) == if keyed then 2 * n else n
    ensures SkipItems(s, offset, n, keyed) == Some(EndOfItems(offset, items))
    decreases items
  {
    if n == 0 {
      assert items.Nil?;
    } else {
      hide *;
      var at, value, rest := FirstElement(s, offset, items, n, keyed);
      EndWithin(s, at, value);
      SkipIsEnd(s, at, value);
      SkipItemsIsEnd(s, EndOf(value), rest, n - 1, keyed);
      DenotedEntry(s, at, value);
      SkipStep(s, offset, n, keyed, value.entry, EndOf(value));
    }
  }

  /** The tree of what skipping decodes at an offset: keys of maps, and pointers, stand for themselves. */
  ghost predicate Outline(s: seq<byte>, offset: nat, t: Tree)
    requires SectionOk(s)
    decreases t
  {
    && Decode(s, offset) == Some(t.entry)
    && match t
       case Scalar(e) => !IsContainer(e)
       case Pointer(_, _) => false
       case Container(e, items) =>
         && ((e.kind == 7 && Count(items) == 2 * e.size) || (e.kind == 11 && Count(items) == e.size))
         && OutlineItems(s, e.next, items, e.kind == 7)
  }

  ghost predicate OutlineItems(s: seq<byte>, offset: nat, items: Items, keyed: bool)
    requires SectionOk(s)
    decreases items
  {
    match items
    case Nil => true
    case More(head, tail) =>
      if keyed then
        && head.Scalar? && Decode(s, offset) == Some(head.entry) && tail.More?
        && Outline(s, head.entry.next, tail.head) && OutlineItems(s, EndOf(tail.head), tail.tail, true)
      else Outline(s, offset, head) && OutlineItems(s, EndOf(head), tail, false)
  }

  lemma OutlineFirst(s: seq<byte>, offset: nat, items: Items, n: nat, keyed: bool)
    returns (at: nat, value: Tree, rest: Items)
    requires SectionOk(s) && OutlineItems(s, offset, items, keyed)
    requires n > 0 && Count(items) == if keyed then 2 * n else n
    ensures keyed ==> Decode(s, offset).Some? && Decode(s, offset).value.next == at
    ensures !keyed ==> at == offset
    ensures value < items && rest < items && Decode(s, at) == Some(value.entry) && Outline(s, at, value)
    ensures OutlineItems(s, EndOf(value), rest, keyed) && Count(rest) == (if keyed then 2 * (n - 1) else n - 1)
    ensures EndOfItems(offset, items) == EndOfItems(EndOf(value), rest)
  {
    hide Decode;
    at := if keyed then EndOf(items.head) else offset;
    value := if keyed then items.tail.head else items.head;
    rest := if keyed then items.tail.tail else items.tail;
  }

  lemma DecodedWithin(s: seq<byte>, at: nat)
    requires SectionOk(s) && Decode(s, at).Some?
    ensures at < Decode(s, at).value.next <= |s|
  {
  }

  lemma SkippedWithin(s: seq<byte>, e: Entry)
    requires SectionOk(s) && e.next <= |s|
    ensures Skip(s, e).Some? ==> e.next <= Skip(s, e).value <= |s|
  {
  }

  lemma NoItems(s: seq<byte>, offset: nat, items: Items, keyed: bool)
    requires SectionOk(s) && offset <= |s|
    ensures SkipItems(s, offset, 0, keyed) == Some(offset) && OutlineItems(s, offset, Nil, keyed) && Count(Nil) == 0
    ensures Count(items) == 0 ==> EndOfItems(offset, items) == offset
  {
  }

  lemma {:induction false} OutlineSkips(s: seq<byte>, offset: nat, t: Tree)
    requires SectionOk(s) && Outline(s, offset, t)
    ensures t.entry.next <= |s| && Skip(s, t.entry) == Some(EndOf(t))
    decreases t
  {
    if t.Container? {
      OutlineItemsSkip(s, t.entry.next, t.items, t.entry.size, t.entry.kind == TYPE_MAP);
    }
  }

  lemma {:induction false} OutlineItemsSkip(s: seq<byte>, offset: nat, items: Items, n: nat, keyed: bool)
    requires SectionOk(s) && offset <= |s| && OutlineItems(s, offset, items, keyed)
    requires Count(items) == if keyed then 2 * n else n
    ensures SkipItems(s, offset, n, keyed) == Some(EndOfItems(offset, items))
    decreases items
  {
    hide *;
    NoItems(s, offset, items, keyed);
    if n > 0 {
      var at, value, rest := OutlineFirst(s, offset, items, n, keyed);
      DecodedWithin(s, at);
      OutlineSkips(s, at, value);
      SkippedWithin(s, value.entry);
      OutlineItemsSkip(s, EndOf(value), rest, n - 1, keyed);
      SkipStep(s, offset, n, keyed, value.entry, EndOf(value));
    }
  }

  lemma OutlineEntry(s: seq<byte>, offset: nat, t: Tree)
    requires SectionOk(s) && Outline(s, offset, t)
    ensures Decode(s, offset) == Some(t.entry)
  {
  }

  lemma SkippedItems(s: seq<byte>, offset: nat, n: nat, keyed: bool) returns (at: nat, next: nat)
    requires SectionOk(s) && offset <= |s| && n > 0 && SkipItems(s, offset, n, keyed).Some?
    ensures keyed ==> Decode(s, offset).Some? && Decode(s, offset).value.next == at
    ensures !keyed ==> at == offset
    ensures offset <= at && Decode(s, at).Some? && at < Decode(s, at).value.next <= |s|
    ensures Skip(s, Decode(s, at).value) == Some(next) && offset < next <= |s| && SkipItems(s, next, n - 1, keyed).Some?
  {
    hide Decode, Skip;
    at := if keyed then Decode(s, offset).value.next else offset;
    next := Skip(s, Decode(s, at).value).value;
  }

  lemma OutlineMore(s: seq<byte>, offset: nat, at: nat, value: Tree, rest: Items, keyed: bool) returns (items: Items)
    requires SectionOk(s) && Outline(s, at, value) && OutlineItems(s, EndOf(value), rest, keyed)
    requires if keyed then Decode(s, offset).Some? && Decode(s, offset).value.next == at else at == offset
    ensures OutlineItems(s, offset, items, keyed) && Count(items) == Count(rest) + if keyed then 2 else 1
  {
    hide Decode, Outline;
    items := if keyed then More(Scalar(Decode(s, offset).value), More(value, rest)) else More(value, rest);
  }

  lemma {:induction false} SkipHasOutline(s: seq<byte>, offset: nat) returns (t: Tree)
    requires SectionOk(s) && Decode(s, offset).Some? && Skip(s, Decode(s, offset).value).Some?
    ensures Outline(s, offset, t)
    decreases |s| - Decode(s, offset).value.next, Decode(s, offset).value.size + 1
  {
    var e := Decode(s, offset).value;
    if IsContainer(e) {
      var items := SkipHasItems(s, e.next, e.size, e.kind == TYPE_MAP);
      t := Container(e, items);
    } else {
      t := Scalar(e);
    }
    hide Decode;
  }

  lemma {:induction false} SkipHasItems(s: seq<byte>, offset: nat, n: nat, keyed: bool) returns (items: Items)
    requires SectionOk(s) && offset <= |s| && SkipItems(s, offset, n, keyed).Some?
    ensures OutlineItems(s, offset, items, keyed) && Count(items) == if keyed then 2 * n else n
    decreases |s| - offset, n
  {
    hide *;
    if n == 0 {
      items := Nil;
      NoItems(s, offset, items, keyed);
    } else {
      var at, next := SkippedItems(s, offset, n, keyed);
      var value := SkipHasOutline(s, at);
      OutlineSkips(s, at, value);
      OutlineEntry(s, at, value);
      var rest := SkipHasItems(s, next, n - 1, keyed);
      items := OutlineMore(s, offset, at, value, rest, keyed);
    }
  }

  /** On any bytes: skipping succeeds exactly if it finds such a tree, and ends where that ends. */
  lemma SkipExactly(s: seq<byte>, offset: nat, end: nat)
    requires SectionOk(s) && Decode(s, offset).Some?
    ensures Skip(s, Decode(s, offset).value) == Some(end) <==> exists t :: Outline(s, offset, t) && EndOf(t) == end
  {
    if Skip(s, Decode(s, offset).value).Some? {
      var t := SkipHasOutline(s, offset);
      OutlineSkips(s, offset, t);
    }
    forall t | Outline(s, offset, t)
      ensures Skip(s, Decode(s, offset).value) == Some(EndOf(t))
    {
      OutlineSkips(s, offset, t);
    }
    hide Decode, Skip;
  }

  // ---------------------------------------------------------------------------------------------
  // Flattening

  datatype Flattened = Flattened(list: seq<Entry>, end: nat)

  /** get_entry_data_list, as long as the pool has room: the entries in the order in which the pool
      hands out their places. None is the invalid data error. */
  function Flat(s: seq<byte>, offset: nat, depth: nat): (r: Option<seq<Entry>>)
    requires SectionOk(s)
    ensures r.Some? ==> r.value != []
    decreases MAXIMUM_DATA_STRUCTURE_DEPTH - depth, 0
  {
    if depth >= MAXIMUM_DATA_STRUCTURE_DEPTH then None
    else
      match Decode(s, offset)
      case None => None
      case Some(e) =>
        if e.kind == TYPE_POINTER then
          match Decode(s, e.pointer)
          case None => None
          case Some(f) =>
            if f.kind == TYPE_POINTER then None
            else if !IsContainer(f) then Some([f.(next := e.next)])
            else
              match Flat(s, e.pointer, depth + 1)
              case None => None
              case Some(list) => Some([list[0].(next := e.next)] + list[1..])
        else if IsContainer(e) then
          match FlatItems(s, e.next, Elements(e), depth + 1)
          case None => None
          case Some(Flattened(list, end)) => Some([e.(next := end)] + list)
        else Some([e])
  }

  function FlatItems(s: seq<byte>, offset: nat, n: nat, depth: nat): Option<Flattened>
    requires SectionOk(s)
    decreases MAXIMUM_DATA_STRUCTURE_DEPTH - depth, n + 1
  {
    if n == 0 then Some(Flattened([], offset))
    else
      match Flat(s, offset, depth)
      case None => None
      case Some(list) =>
        match FlatItems(s, list[0].next, n - 1, depth)
        case None => None
        case Some(Flattened(rest, end)) => Some(Flattened(list + rest, end))
  }

  /** A value and everything in it, in pre-order, with pointers replaced by what they point to. */
  function PreOrder(t: Tree): (r: seq<Entry>)
    ensures r != [] && r[0].next == EndOf(t)
  {
    match t
    case Scalar(e) => [e]
    case Pointer(e, target) =>
      var list := PreOrder(target);
      [list[0].(next := e.next)] + list[1..]
    case Container(e, items) => [e.(next := EndOf(t))] + PreOrderItems(items)
  }

  function PreOrderItems(items: Items): seq<Entry> {
    match items
    case Nil => []
    case More(head, tail) => PreOrder(head) + PreOrderItems(tail)
  }

  function Max(a: nat, b: nat): nat {
    if a < b then b else a
  }

  /** How deep get_entry_data_list recurses into a value. */
  function Height(t: Tree): (h: nat)
    ensures h > 0
  {
    match t
    case Scalar(_) => 1
    case Pointer(_, target) => if target.Container? then 1 + Height(target) else 1
    case Container(_, items) => 1 + HeightOfItems(items)
  }

  function HeightOfItems(items: Items): nat {
    match items
    case Nil => 0
    case More(head, tail) => Max(Height(head), HeightOfItems(tail))
  }

  /** Flattening a value yields its pre-order, exactly if it is not nested too deeply. */
  lemma {:induction false} FlatIsPreOrder(s: seq<byte>, offset: nat, t: Tree, depth: nat)
    requires SectionOk(s) && Denotes(s, offset, t)
    ensures Flat(s, offset, depth) ==
      if depth + Height(t) <= 512 then Some(PreOrder(t)) else None
    decreases t
  {
    hide Decode;
    if depth >= MAXIMUM_DATA_STRUCTURE_DEPTH {
      return;
    }
    match t
    case Scalar(_) =>
    case Pointer(e, target) =>
      if target.Container? {
        FlatIsPreOrder(s, e.pointer, target, depth + 1);
      } else {
        assert PreOrder(target) == [target.entry];
        assert PreOrder(t) == [target.entry.(next := e.next)];
      }
    case Container(e, items) => FlatItemsIsPreOrder(s, e.next, items, depth + 1);
  }

  lemma {:induction false} FlatItemsIsPreOrder(s: seq<byte>, offset: nat, items: Items, depth: nat)
    requires SectionOk(s) && DenoteItems(s, offset, items) && depth <= MAXIMUM_DATA_STRUCTURE_DEPTH
    ensures FlatItems(s, offset, Count(items), depth) ==
      if depth + HeightOfItems(items) <= MAXIMUM_DATA_STRUCTURE_DEPTH
      then Some(Flattened(PreOrderItems(items), EndOfItems(offset, items))) else None
    decreases items
  {
    if items.More? {
      FlatIsPreOrder(s, offset, items.head, depth);
      FlatItemsIsPreOrder(s, EndOf(items.head), items.tail, depth);
    }
  }

  /** On any bytes: if flattening succeeds, the bytes hold a tree. */
  lemma {:induction false} FlatHasTree(s: seq<byte>, offset: nat, depth: nat) returns (t: Tree)
    requires SectionOk(s) && Flat(s, offset, depth).Some?
    ensures Denotes(s, offset, t)
    decreases MAXIMUM_DATA_STRUCTURE_DEPTH - depth, 0
  {
    var e := Decode(s, offset).value;
    if e.kind == TYPE_POINTER {
      var f := Decode(s, e.pointer).value;
      if IsContainer(f) {
        var target := FlatHasTree(s, e.pointer, depth + 1);
        t := Pointer(e, target);
      } else {
        t := Pointer(e, Scalar(f));
      }
    } else if IsContainer(e) {
      var items := FlatHasItems(s, e.next, Elements(e), depth + 1);
      t := Container(e, items);
    } else {
      t := Scalar(e);
    }
  }

  lemma {:induction false} FlatHasItems(s: seq<byte>, offset: nat, n: nat, depth: nat) returns (items: Items)
    requires SectionOk(s) && FlatItems(s, offset, n, depth).Some?
    ensures DenoteItems(s, offset, items) && Count(items) == n
    decreases MAXIMUM_DATA_STRUCTURE_DEPTH - depth, n + 1
  {
    hide Decode;
    if n == 0 {
      items := Nil;
    } else {
      var head := FlatHasTree(s, offset, depth);
      FlatIsPreOrder(s, offset, head, depth);
      var tail := FlatHasItems(s, EndOf(head), n - 1, depth);
      items := More(head, tail);
    }
  }

  /** The two walkers agree: on any bytes, if flattening a value succeeds and no key of an inline map
      is a container, skipping it ends where the flattened value ends. */
  lemma FlatAgreesWithSkip(s: seq<byte>, offset: nat, depth: nat, t: Tree)
    requires SectionOk(s) && Flat(s, offset, depth).Some? && Denotes(s, offset, t) && PlainKeys(t)
    ensures Decode(s, offset).Some? && Skip(s, Decode(s, offset).value) == Some(Flat(s, offset, depth).value[0].next)
    ensures Flat(s, offset, depth).value == PreOrder(t)
  {
    FlatIsPreOrder(s, offset, t, depth);
    SkipIsEnd(s, offset, t);
    EndWithin(s, offset, t);
  }
}
