/** The walkers of geoip/maxminddb.c as they run: skipping, path lookup, and the flattening of a value
    into a list of pooled cells. */
module DataReader {
  import opened Bytes
  import opened SearchTree
  import opened DataSection
  import opened DataTree
  import opened DataPath
  import opened DataPool

  /** One round of the loops of skip_map_or_array. */
  lemma SkipRound(s: seq<byte>, offset: nat, n: nat, keyed: bool)
    requires SectionOk(s) && offset <= |s| && n > 0
    ensures keyed && Decode(s, offset) == None ==> SkipItems(s, offset, n, keyed) == None
    ensures (keyed ==> Decode(s, offset) != None) ==>
      var value := Decode(s, if keyed then Decode(s, offset).value.next else offset);
      SkipItems(s, offset, n, keyed) ==
        if value == None || Skip(s, value.value) == None then None
        else SkipItems(s, Skip(s, value.value).value, n - 1, keyed)
  {
  }

  lemma SkipEnds(s: seq<byte>, offset: nat, keyed: bool)
    requires SectionOk(s) && offset <= |s|
    ensures SkipItems(s, offset, 0, keyed) == Some(offset)
  {
  }

  /** skip_map_or_array. It terminates on any bytes, because every entry ends behind its start. */
  method SkipMapOrArray(s: seq<byte>, e: Entry) returns (r: Option<nat>)
    requires SectionOk(s) && e.next <= |s|
    ensures r == Skip(s, e)
    decreases |s| - e.next, 1
  {
    if e.kind == TYPE_MAP {
      r := SkipMap(s, e.next, e.size);
    } else if e.kind == TYPE_ARRAY {
      r := SkipArray(s, e.next, e.size);
    } else {
      r := Some(e.next);
    }
  }

  /** The map case of skip_map_or_array. */
  method SkipMap(s: seq<byte>, start: nat, size: nat) returns (r: Option<nat>)
    requires SectionOk(s) && start <= |s|
    ensures r == SkipItems(s, start, size, true)
    decreases |s| - start, 0
  {
    hide Skip, SkipItems, Decode;
    var left := size;
    var next := start;
    while left > 0
      invariant start <= next <= |s| && SkipItems(s, start, size, true) == SkipItems(s, next, left, true)
    {
      SkipRound(s, next, left, true);
      left := left - 1;
      var key := Decode(s, next);
      if key == None {
        return None;
      }
      var value := Decode(s, key.value.next);
      if value == None {
        return None;
      }
      var skipped := SkipMapOrArray(s, value.value);
      if skipped == None {
        return None;
      }
      next := skipped.value;
    }
    SkipEnds(s, next, true);
    return Some(next);
  }

  /** The array case of skip_map_or_array. */
  method SkipArray(s: seq<byte>, start: nat, size: nat) returns (r: Option<nat>)
    requires SectionOk(s) && start <= |s|
    ensures r == SkipItems(s, start, size, false)
    decreases |s| - start, 0
  {
    hide Skip, SkipItems, Decode;
    var left := size;
    var next := start;
    while left > 0
      invariant start <= next <= |s| && SkipItems(s, start, size, false) == SkipItems(s, next, left, false)
    {
      SkipRound(s, next, left, false);
      left := left - 1;
      var value := Decode(s, next);
      if value == None {
        return None;
      }
      var skipped := SkipMapOrArray(s, value.value);
      if skipped == None {
        return None;
      }
      next := skipped.value;
    }
    SkipEnds(s, next, false);
    return Some(next);
  }

  /** One round of the loop of lookup_path_in_array. */
  lemma ElementRound(s: seq<byte>, offset: nat, n: nat)
    requires SectionOk(s) && offset <= |s| && n > 0
    ensures var value := Decode(s, offset);
      LookupElement(s, offset, n) ==
        if value == None || Skip(s, value.value) == None then Err(InvalidData)
        else LookupElement(s, Skip(s, value.value).value, n - 1)
  {
  }

  lemma ElementFound(s: seq<byte>, offset: nat)
    requires SectionOk(s) && offset <= |s|
    ensures LookupElement(s, offset, 0) ==
      if DecodeFollow(s, offset) == None then Err(InvalidData) else Ok(DecodeFollow(s, offset).value)
  {
  }

  /** lookup_path_in_array. */
  method LookupPathInArray(s: seq<byte>, e: Entry, key: Key) returns (r: Lookup<Entry>)
    requires SectionOk(s) && e.next <= |s|
    ensures r == LookupArray(s, e, key)
  {
    hide Skip, Decode, DecodeFollow, LookupElement, ArrayIndex;
    var index := ArrayIndex(key);
    if index.OutOfRange? {
      return Err(InvalidLookupPath);
    }
    if index.Junk? || index.n >= e.size {
      return Err(PathDoesNotMatch);
    }
    var next: nat := e.next;
    var i: nat := 0;
    while i < index.n
      invariant i <= index.n && next <= |s|
      invariant LookupElement(s, e.next, index.n) == LookupElement(s, next, index.n - i)
    {
      ElementRound(s, next, index.n - i);
      var value := Decode(s, next);
      if value == None {
        return Err(InvalidData);
      }
      var skipped := SkipMapOrArray(s, value.value);
      if skipped == None {
        return Err(InvalidData);
      }
      next := skipped.value;
      i := i + 1;
    }
    ElementFound(s, next);
    var value := DecodeFollow(s, next);
    return if value == None then Err(InvalidData) else Ok(value.value);
  }

  /** One round of the loop of lookup_path_in_map. */
  lemma MapRound(s: seq<byte>, offset: nat, n: nat, key: Key)
    requires SectionOk(s) && n > 0
    ensures var k := DecodeFollow(s, offset);
      if k == None || k.value.kind != TYPE_UTF8_STRING then LookupMap(s, offset, n, key) == Err(InvalidData)
      else if k.value.payload == key then LookupMap(s, offset, n, key) == Followed(s, k.value.next)
      else
        var value := Decode(s, k.value.next);
        LookupMap(s, offset, n, key) ==
          if value == None || Skip(s, value.value) == None then Err(InvalidData)
          else LookupMap(s, Skip(s, value.value).value, n - 1, key)
  {
  }

  lemma MapEnds(s: seq<byte>, offset: nat, key: Key)
    requires SectionOk(s)
    ensures LookupMap(s, offset, 0, key) == Err(PathDoesNotMatch)
  {
  }

  /** lookup_path_in_map. */
  method LookupPathInMap(s: seq<byte>, e: Entry, key: Key) returns (r: Lookup<Entry>)
    requires SectionOk(s) && e.next <= |s|
    ensures r == LookupMap(s, e.next, e.size, key)
  {
    hide Skip, Decode, DecodeFollow, LookupMap;
    var left: nat := e.size;
    var offset := e.next;
    while left > 0
      invariant LookupMap(s, e.next, e.size, key) == LookupMap(s, offset, left, key)
    {
      MapRound(s, offset, left, key);
      left := left - 1;
      var k := DecodeFollow(s, offset);
      if k == None || k.value.kind != TYPE_UTF8_STRING {
        return Err(InvalidData);
      }
      if k.value.payload == key {
        var value := DecodeFollow(s, k.value.next);
        return if value == None then Err(InvalidData) else Ok(value.value);
      }
      var value := Decode(s, k.value.next);
      if value == None {
        return Err(InvalidData);
      }
      var skipped := SkipMapOrArray(s, value.value);
      if skipped == None {
        return Err(InvalidData);
      }
      offset := skipped.value;
    }
    MapEnds(s, offset, key);
    return Err(PathDoesNotMatch);
  }

  /** MMDB_aget_value. */
  method AGetValue(s: seq<byte>, offset: nat, path: seq<Key>) returns (r: Lookup<Entry>)
    requires SectionOk(s)
    ensures r == GetValue(s, offset, path)
  {
    var first := DecodeFollow(s, offset);
    if first == None {
      return Err(InvalidData);
    }
    var e := first.value;
    var i := 0;
    while i < |path|
      invariant 0 <= i <= |path| && e.next <= |s| && GetValue(s, offset, path) == GetFrom(s, e, path[i..])
    {
      assert path[i..][1..] == path[i + 1..];
      var found;
      if e.kind == TYPE_ARRAY {
        found := LookupPathInArray(s, e, path[i]);
      } else if e.kind == TYPE_MAP {
        found := LookupPathInMap(s, e, path[i]);
      } else {
        found := Err(PathDoesNotMatch);
      }
      if found.Err? {
        return found;
      }
      e := found.value;
      i := i + 1;
    }
    return Ok(e);
  }

  // ---------------------------------------------------------------------------------------------
  // Flattening

  datatype Status = Success | BadData | OutOfMemory

  /** What flattening into the last cell handed out promises: on success that cell and the new ones
      behind it hold the flattened value. */
  ghost predicate FlattenedInto(status: Status, flat: Option<seq<Entry>>, before: seq<Entry>, after: seq<Entry>) {
    match status
    case Success => before != [] && flat.Some? && after == before[..|before| - 1] + flat.value
    case BadData => flat.None?
    case OutOfMemory => true
  }

  function Prepend(done: seq<Entry>, r: Option<Flattened>): Option<Flattened> {
    match r
    case None => None
    case Some(Flattened(rest, end)) => Some(Flattened(done + rest, end))
  }

  lemma NothingPrepended(r: Option<Flattened>)
    ensures Prepend([], r) == r
  {
    if r.Some? {
      assert [] + r.value.list == r.value.list;
    }
  }

  lemma ItemFlattened(s: seq<byte>, at: nat, left: nat, depth: nat, done: seq<Entry>)
    requires SectionOk(s) && left > 0
    ensures Prepend(done, FlatItems(s, at, left, depth)) ==
      match Flat(s, at, depth)
      case None => None
      case Some(list) => Prepend(done + list, FlatItems(s, list[0].next, left - 1, depth))
  {
    if Flat(s, at, depth).Some? && FlatItems(s, Flat(s, at, depth).value[0].next, left - 1, depth).Some? {
      var list := Flat(s, at, depth).value;
      var rest := FlatItems(s, list[0].next, left - 1, depth).value.list;
      assert done + (list + rest) == (done + list) + rest;
    }
  }

  lemma ItemsFlattened(s: seq<byte>, at: nat, depth: nat, done: seq<Entry>)
    requires SectionOk(s)
    ensures Prepend(done, FlatItems(s, at, 0, depth)) == Some(Flattened(done, at))
  {
    assert done + [] == done;
  }

  lemma IntoLast(status: Status, flat: Option<seq<Entry>>, was: seq<Entry>, before: seq<Entry>, after: seq<Entry>)
    requires FlattenedInto(status, flat, before, after) && |before| == |was| + 1 && before[..|was|] == was
    requires flat.Some? ==> flat.value != []
    ensures status == Success ==> flat.Some? && after == was + flat.value && after[|was|] == flat.value[0]
    ensures status == BadData ==> flat == None
  {
  }

  lemma SameFront(status: Status, flat: Option<seq<Entry>>, before: seq<Entry>, mid: seq<Entry>, after: seq<Entry>)
    requires FlattenedInto(status, flat, mid, after) && before != [] && |mid| == |before|
    requires mid == before[|before| - 1 := mid[|before| - 1]]
    ensures FlattenedInto(status, flat, before, after)
  {
    assert mid[..|before| - 1] == before[..|before| - 1];
  }

  lemma FlatCases(s: seq<byte>, offset: nat, depth: nat)
    requires SectionOk(s)
    ensures depth >= MAXIMUM_DATA_STRUCTURE_DEPTH || Decode(s, offset) == None ==> Flat(s, offset, depth) == None
    ensures depth < MAXIMUM_DATA_STRUCTURE_DEPTH && Decode(s, offset) != None ==>
      var e := Decode(s, offset).value;
      && (e.kind == TYPE_ARRAY || e.kind == TYPE_MAP ==> IsContainer(e))
      && (e.kind == TYPE_ARRAY ==> Elements(e) == e.size) && (e.kind == TYPE_MAP ==> Elements(e) == 2 * e.size)
      && (e.kind != TYPE_POINTER && e.kind != TYPE_ARRAY && e.kind != TYPE_MAP ==> Flat(s, offset, depth) == Some([e]))
  {
  }

  lemma ContainerFlat(s: seq<byte>, offset: nat, depth: nat, e: Entry)
    requires SectionOk(s) && depth < MAXIMUM_DATA_STRUCTURE_DEPTH && Decode(s, offset) == Some(e) && IsContainer(e)
    ensures var r := FlatItems(s, e.next, Elements(e), depth + 1);
      Flat(s, offset, depth) == if r == None then None else Some([e.(next := r.value.end)] + r.value.list)
  {
  }

  lemma FilledIn(before: seq<Entry>, done: seq<Entry>, x: Entry)
    requires before != []
    ensures (before + done)[|before| - 1 := x] == before[..|before| - 1] + ([x] + done)
  {
  }

  lemma ContainerFilled(s: seq<byte>, offset: nat, depth: nat, e: Entry, done: seq<Entry>, at: nat,
                        before: seq<Entry>, after: seq<Entry>)
    requires SectionOk(s) && depth < MAXIMUM_DATA_STRUCTURE_DEPTH && Decode(s, offset) == Some(e) && IsContainer(e)
    requires FlatItems(s, e.next, Elements(e), depth + 1) == Some(Flattened(done, at))
    requires before != [] && after == (before + done)[|before| - 1 := e.(next := at)]
    ensures FlattenedInto(Success, Flat(s, offset, depth), before, after)
  {
    ContainerFlat(s, offset, depth, e);
    FilledIn(before, done, e.(next := at));
    hide Flat, FlatItems;
  }

  lemma ContainerFails(s: seq<byte>, offset: nat, depth: nat, e: Entry, status: Status,
                       before: seq<Entry>, after: seq<Entry>)
    requires SectionOk(s) && depth < MAXIMUM_DATA_STRUCTURE_DEPTH && Decode(s, offset) == Some(e) && IsContainer(e)
    requires status == OutOfMemory || (status == BadData && FlatItems(s, e.next, Elements(e), depth + 1) == None)
    ensures FlattenedInto(status, Flat(s, offset, depth), before, after)
  {
    ContainerFlat(s, offset, depth, e);
    hide Flat, FlatItems;
  }

  /** A flattened value whose own entry goes on at `next`. */
  function Retargeted(flat: Option<seq<Entry>>, next: nat): Option<seq<Entry>> {
    if flat == None || flat.value == [] then None
    else Some([flat.value[0].(next := next)] + flat.value[1..])
  }

  lemma PointerFlat(s: seq<byte>, offset: nat, depth: nat, e: Entry)
    requires SectionOk(s) && depth < MAXIMUM_DATA_STRUCTURE_DEPTH
    requires Decode(s, offset) == Some(e) && e.kind == TYPE_POINTER
    ensures var f := Decode(s, e.pointer);
      Flat(s, offset, depth) ==
        if f == None || f.value.kind == TYPE_POINTER then None
        else if f.value.kind != TYPE_ARRAY && f.value.kind != TYPE_MAP then Some([f.value.(next := e.next)])
        else Retargeted(Flat(s, e.pointer, depth + 1), e.next)
  {
  }

  lemma EntryRetargeted(flat: Option<seq<Entry>>, before: seq<Entry>, after: seq<Entry>, done: seq<Entry>, next: nat)
    requires flat.Some? && flat.value != []
    requires FlattenedInto(Success, flat, before, after)
    requires |before| <= |after| && done == after[|before| - 1 := after[|before| - 1].(next := next)]
    ensures FlattenedInto(Success, Retargeted(flat, next), before, done)
  {
    var list := flat.value;
    assert after[|before| - 1] == list[0];
    assert done == before[..|before| - 1] + ([list[0].(next := next)] + list[1..]);
  }

  lemma NothingRetargeted(next: nat)
    ensures Retargeted(None, next) == None
  {
  }

  lemma IsFlattened(status: Status, flat: Option<seq<Entry>>, before: seq<Entry>, after: seq<Entry>)
    requires match status
      case Success => before != [] && flat.Some? && after == before[..|before| - 1] + flat.value
      case BadData => flat.None?
      case OutOfMemory => true
    ensures FlattenedInto(status, flat, before, after)
  {
  }

  lemma Unflattened(status: Status, flat: Option<seq<Entry>>, before: seq<Entry>, after: seq<Entry>)
    requires FlattenedInto(status, flat, before, after)
    ensures match status
      case Success => before != [] && flat.Some? && after == before[..|before| - 1] + flat.value
      case BadData => flat.None?
      case OutOfMemory => true
  {
  }

  /** An allocated cell filled by get_entry_data_list: one element, key or value of a container. */
  method AppendItem(s: seq<byte>, at: nat, pool: Pool, depth: nat) returns (status: Status, next: nat)
    requires SectionOk(s) && pool.Valid()
    modifies pool
    ensures pool.Valid() && old(pool.Order()) <= pool.Order()
    ensures match status
      case Success => Flat(s, at, depth).Some? && pool.Entries() == old(pool.Entries()) + Flat(s, at, depth).value
                   && next == Flat(s, at, depth).value[0].next
      case BadData => Flat(s, at, depth).None?
      case OutOfMemory => pool.Exhausted()
    decreases MAXIMUM_DATA_STRUCTURE_DEPTH - depth, 2
  {
    hide *;
    next := at;
    var cell := pool.Alloc();
    if cell == None {
      return OutOfMemory, at;
    }
    ghost var k := |old(pool.Order())|;
    ghost var before := pool.Entries();
    status := GetEntryDataList(s, at, cell.value, pool, depth);
    IntoLast(status, Flat(s, at, depth), old(pool.Entries()), before, pool.Entries());
    if status == Success {
      var entry := pool.GetEntry(cell.value, k);
      next := entry.next;
    }
  }

  /** get_entry_data_list. `r` is the cell to fill, the last one handed out so far. */
  method GetEntryDataList(s: seq<byte>, offset: nat, r: Ref, pool: Pool, depth: nat) returns (status: Status)
    requires SectionOk(s) && pool.Valid()
    requires pool.Order() != [] && pool.Order()[|pool.Order()| - 1] == r
    modifies pool
    ensures pool.Valid() && old(pool.Order()) <= pool.Order()
    ensures FlattenedInto(status, Flat(s, offset, depth), old(pool.Entries()), pool.Entries())
    ensures status == OutOfMemory ==> pool.Exhausted()
    decreases MAXIMUM_DATA_STRUCTURE_DEPTH - depth, 1
  {
    hide *;
    FlatCases(s, offset, depth);
    ghost var before, k: nat := pool.Entries(), |pool.Order()| - 1;
    if depth >= MAXIMUM_DATA_STRUCTURE_DEPTH {
      IsFlattened(BadData, None, before, before);
      return BadData;
    }
    var decoded := Decode(s, offset);
    if decoded == None {
      IsFlattened(BadData, None, before, before);
      return BadData;
    }
    var e := decoded.value;
    pool.SetEntry(r, e, k);
    ghost var mid := pool.Entries();
    if e.kind == TYPE_POINTER {
      status := FollowPointer(s, offset, e, r, pool, depth);
    } else if e.kind == TYPE_ARRAY {
      status := FlattenArray(s, offset, e, r, pool, depth);
    } else if e.kind == TYPE_MAP {
      status := FlattenMap(s, offset, e, r, pool, depth);
    } else {
      status := Success;
      assert mid == mid[..k] + [e];
      IsFlattened(Success, Flat(s, offset, depth), mid, mid);
    }
    SameFront(status, Flat(s, offset, depth), before, mid, pool.Entries());
  }

  /** The array case of get_entry_data_list, with the array's own entry in its cell. */
  method FlattenArray(s: seq<byte>, offset: nat, e: Entry, r: Ref, pool: Pool, depth: nat) returns (status: Status)
    requires SectionOk(s) && pool.Valid() && depth < MAXIMUM_DATA_STRUCTURE_DEPTH
    requires Decode(s, offset) == Some(e) && e.kind == TYPE_ARRAY && IsContainer(e) && Elements(e) == e.size
    requires pool.Order() != [] && pool.Order()[|pool.Order()| - 1] == r && pool.Entries()[|pool.Entries()| - 1] == e
    modifies pool
    ensures pool.Valid() && old(pool.Order()) <= pool.Order()
    ensures FlattenedInto(status, Flat(s, offset, depth), old(pool.Entries()), pool.Entries())
    ensures status == OutOfMemory ==> pool.Exhausted()
    decreases MAXIMUM_DATA_STRUCTURE_DEPTH - depth, 0
  {
    hide *;
    ghost var before, done, k: nat := pool.Entries(), [], |pool.Order()| - 1;
    var left := e.size;
    var at := e.next;
    NothingPrepended(FlatItems(s, at, left, depth + 1));
    while left > 0
      invariant left >= 0 && pool.Valid() && old(pool.Order()) <= pool.Order()
      invariant pool.Entries() == before + done
      invariant FlatItems(s, e.next, e.size, depth + 1) == Prepend(done, FlatItems(s, at, left, depth + 1))
    {
      left := left - 1;
      ItemFlattened(s, at, left + 1, depth + 1, done);
      ghost var list := Flat(s, at, depth + 1);
      status, at := AppendItem(s, at, pool, depth + 1);
      if status != Success {
        ContainerFails(s, offset, depth, e, status, before, pool.Entries());
        return;
      }
      done := done + list.value;
    }
    ItemsFlattened(s, at, depth + 1, done);
    assert pool.Order()[k] == r;
    pool.SetEntry(r, e.(next := at), k);
    ContainerFilled(s, offset, depth, e, done, at, before, pool.Entries());
    status := Success;
  }

  /** The map case of get_entry_data_list: a key and a value at a time. */
  method FlattenMap(s: seq<byte>, offset: nat, e: Entry, r: Ref, pool: Pool, depth: nat) returns (status: Status)
    requires SectionOk(s) && pool.Valid() && depth < MAXIMUM_DATA_STRUCTURE_DEPTH
    requires Decode(s, offset) == Some(e) && e.kind == TYPE_MAP && IsContainer(e) && Elements(e) == 2 * e.size
    requires pool.Order() != [] && pool.Order()[|pool.Order()| - 1] == r && pool.Entries()[|pool.Entries()| - 1] == e
    modifies pool
    ensures pool.Valid() && old(pool.Order()) <= pool.Order()
    ensures FlattenedInto(status, Flat(s, offset, depth), old(pool.Entries()), pool.Entries())
    ensures status == OutOfMemory ==> pool.Exhausted()
    decreases MAXIMUM_DATA_STRUCTURE_DEPTH - depth, 0
  {
    hide *;
    ghost var before, done, k: nat := pool.Entries(), [], |pool.Order()| - 1;
    var size := e.size;
    var at := e.next;
    NothingPrepended(FlatItems(s, at, 2 * size, depth + 1));
    while size > 0
      invariant size >= 0 && pool.Valid() && old(pool.Order()) <= pool.Order()
      invariant pool.Entries() == before + done
      invariant FlatItems(s, e.next, 2 * e.size, depth + 1) == Prepend(done, FlatItems(s, at, 2 * size, depth + 1))
    {
      size := size - 1;
      ItemFlattened(s, at, 2 * size + 2, depth + 1, done);
      ghost var list := Flat(s, at, depth + 1);
      status, at := AppendItem(s, at, pool, depth + 1);
      if status != Success {
        ContainerFails(s, offset, depth, e, status, before, pool.Entries());
        return;
      }
      done := done + list.value;
      ItemFlattened(s, at, 2 * size + 1, depth + 1, done);
      list := Flat(s, at, depth + 1);
      status, at := AppendItem(s, at, pool, depth + 1);
      if status != Success {
        ContainerFails(s, offset, depth, e, status, before, pool.Entries());
        return;
      }
      done := done + list.value;
    }
    ItemsFlattened(s, at, depth + 1, done);
    assert pool.Order()[k] == r;
    pool.SetEntry(r, e.(next := at), k);
    ContainerFilled(s, offset, depth, e, done, at, before, pool.Entries());
    status := Success;
  }

  /** The pointer case of get_entry_data_list. */
  method FollowPointer(s: seq<byte>, offset: nat, e: Entry, r: Ref, pool: Pool, depth: nat) returns (status: Status)
    requires SectionOk(s) && pool.Valid() && depth < MAXIMUM_DATA_STRUCTURE_DEPTH
    requires Decode(s, offset) == Some(e) && e.kind == TYPE_POINTER
    requires pool.Order() != [] && pool.Order()[|pool.Order()| - 1] == r
    modifies pool
    ensures pool.Valid() && old(pool.Order()) <= pool.Order()
    ensures FlattenedInto(status, Flat(s, offset, depth), old(pool.Entries()), pool.Entries())
    ensures status == OutOfMemory ==> pool.Exhausted()
    decreases MAXIMUM_DATA_STRUCTURE_DEPTH - depth, 0
  {
    hide *;
    PointerFlat(s, offset, depth, e);
    ghost var before, k: nat := pool.Entries(), |pool.Order()| - 1;
    var decoded := Decode(s, e.pointer);
    if decoded == None || decoded.value.kind == TYPE_POINTER {
      IsFlattened(BadData, None, before, before);
      return BadData;
    }
    var f := decoded.value;
    pool.SetEntry(r, f, k);
    ghost var mid := pool.Entries();
    if f.kind == TYPE_ARRAY || f.kind == TYPE_MAP {
      status := FlattenTarget(s, e, r, pool, depth);
    } else {
      pool.SetEntry(r, f.(next := e.next), k);
      assert pool.Entries() == mid[..k] + [f.(next := e.next)];
      status := Success;
      IsFlattened(status, Flat(s, offset, depth), mid, pool.Entries());
    }
    SameFront(status, Flat(s, offset, depth), before, mid, pool.Entries());
  }

  /** A pointer to a container: the container is flattened in place of the pointer. */
  method FlattenTarget(s: seq<byte>, e: Entry, r: Ref, pool: Pool, depth: nat) returns (status: Status)
    requires SectionOk(s) && pool.Valid() && depth < MAXIMUM_DATA_STRUCTURE_DEPTH
    requires pool.Order() != [] && pool.Order()[|pool.Order()| - 1] == r
    modifies pool
    ensures pool.Valid() && old(pool.Order()) <= pool.Order()
    ensures FlattenedInto(status, Retargeted(Flat(s, e.pointer, depth + 1), e.next),
                          old(pool.Entries()), pool.Entries())
    ensures status == OutOfMemory ==> pool.Exhausted()
    decreases MAXIMUM_DATA_STRUCTURE_DEPTH - depth - 1, 2
  {
    hide *;
    ghost var flat, before, k: nat := Flat(s, e.pointer, depth + 1), pool.Entries(), |pool.Order()| - 1;
    status := GetEntryDataList(s, e.pointer, r, pool, depth + 1);
    Unflattened(status, flat, before, pool.Entries());
    if status != Success {
      assert status == BadData ==> Retargeted(flat, e.next) == None by { NothingRetargeted(e.next); }
      IsFlattened(status, Retargeted(flat, e.next), before, pool.Entries());
      return;
    }
    ghost var after := pool.Entries();
    var entry := pool.GetEntry(r, k);
    pool.SetEntry(r, entry.(next := e.next), k);
    EntryRetargeted(flat, before, after, pool.Entries(), e.next);
  }

  /** MMDB_get_entry_data_list, with a pool of 64 cells to begin with: on success the list that it
      returns holds the flattened value and ends there. After an error that struck later than the first
      cell, the list that is returned names all cells handed out, with what was stored in them. */
  method GetEntryDataListOf(s: seq<byte>, offset: nat, cellSize: nat)
    returns (status: Status, list: Option<Ref>, pool: Pool?)
    requires SectionOk(s)
    ensures status == Success ==>
      && Flat(s, offset, 0).Some? && list.Some? && pool != null
      && forall n: nat :: n >= |Flat(s, offset, 0).value| ==>
           Chain(pool.blocks, list.value, n) == Flat(s, offset, 0).value
    ensures status == BadData ==> Flat(s, offset, 0) == None
    ensures status == OutOfMemory ==> pool == null || pool.Exhausted()
    ensures list == None ==> status == OutOfMemory
    ensures list.Some? ==> pool != null && pool.Order() != [] && list.value == pool.Order()[0]
    ensures list.Some? ==>
      forall n: nat :: n >= |pool.Order()| ==> Chain(pool.blocks, list.value, n) == pool.Entries()
    ensures pool == null ==> 64 * cellSize > SIZE_MAX
  {
    list := None;
    pool := Pool.New(64, cellSize);
    if pool == null {
      return OutOfMemory, None, null;
    }
    var first := pool.Alloc();
    if first == None {
      return OutOfMemory, None, pool;
    }
    status := GetEntryDataList(s, offset, first.value, pool, 0);
    list := pool.ToList();
    assert list != None;
    forall n: nat | n >= |pool.Order()|
      ensures Chain(pool.blocks, list.value, n) == pool.Entries()
    {
      ChainIsOrder(pool.blocks, pool.Order(), 0, n);
    }
    if status == Success {
      assert pool.Entries() == Flat(s, offset, 0).value;
    }
  }
}
