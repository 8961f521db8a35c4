/** Path lookup in the data section of geoip/maxminddb.c, on bytes and on the trees they stand for. */
module DataPath {
  import opened Bytes
  import opened SearchTree
  import opened DataSection
  import opened DataTree

  datatype Error = InvalidData | InvalidLookupPath | PathDoesNotMatch

  datatype Lookup<T> = Ok(value: T) | Err(error: Error)

  /** A path element: the bytes of a C string, without its terminator. */
  type Key = seq<byte>

  // ---------------------------------------------------------------------------------------------
  // Array indices

  datatype Index = OutOfRange | Junk | At(n: nat)

  const LONG_MAX: int := 0x7fff_ffff_ffff_ffff

  predicate IsSpace(c: byte) {
    c == 32 || 9 <= c <= 13
  }

  predicate IsDigit(c: byte) {
    48 <= c <= 57
  }

  function SkipSpace(key: Key, i: nat): (j: nat)
    requires i <= |key|
    ensures i <= j <= |key|
    decreases |key| - i
  {
    if i < |key| && IsSpace(key[i]) then SkipSpace(key, i + 1) else i
  }

  function SkipDigits(key: Key, i: nat): (j: nat)
    requires i <= |key|
    ensures i <= j <= |key| && forall k :: i <= k < j ==> IsDigit(key[k])
    decreases |key| - i
  {
    if i < |key| && IsDigit(key[i]) then SkipDigits(key, i + 1) else i
  }

  function Decimal(digits: Key): nat
    requires forall c <- digits :: IsDigit(c)
  {
    if digits == [] then 0
    else
      var last := digits[|digits| - 1];
      assert IsDigit(last);
      Decimal(digits[..|digits| - 1]) * 10 + (last as int - 48)
  }

  /** The cast of a long to a 32-bit int. */
  function ToInt32(v: int): int {
    var w := v % TWO_32;
    if w < TWO_31 then w else w - TWO_32
  }

  /** strtol with base 10 and 64-bit long, and the tests lookup_path_in_array makes on its result
      before it looks at the array's size. */
  function ArrayIndex(key: Key): Index {
    var i := SkipSpace(key, 0);
    var signed := i < |key| && (key[i] == 43 || key[i] == 45);
    var start := if signed then i + 1 else i;
    var end := SkipDigits(key, start);
    if end == start then if key == [] then At(0) else Junk
    else
      var v: int := Decimal(key[start..end]);
      var long: int := if signed && key[i] == 45 then -v else v;
      if long > LONG_MAX || long < -LONG_MAX - 1 || ToInt32(long) < 0 then OutOfRange
      else if end < |key| then Junk
      else At(ToInt32(long))
  }

  lemma {:induction false} SpacesEnd(key: Key, i: nat, n: nat)
    requires i <= n <= |key| && (forall k :: i <= k < n ==> IsSpace(key[k])) && (n < |key| ==> !IsSpace(key[n]))
    ensures SkipSpace(key, i) == n
    decreases n - i
  {
    if i < n {
      SpacesEnd(key, i + 1, n);
    }
  }

  lemma {:induction false} DigitsEnd(key: Key, i: nat, n: nat)
    requires i <= n <= |key| && (forall k :: i <= k < n ==> IsDigit(key[k])) && (n < |key| ==> !IsDigit(key[n]))
    ensures SkipDigits(key, i) == n
    decreases n - i
  {
    if i < n {
      DigitsEnd(key, i + 1, n);
    }
  }

  /** A path element taken apart: white space, perhaps a sign, digits, and what follows them. */
  ghost predicate IsNumber(spaces: Key, sign: Key, digits: Key, rest: Key) {
    && (forall c <- spaces :: IsSpace(c)) && (sign == [] || sign == [43] || sign == [45])
    && digits != [] && (forall c <- digits :: IsDigit(c)) && (rest != [] ==> !IsDigit(rest[0]))
  }

  function Signed(sign: Key, v: int): int {
    if sign == [45] then -v else v
  }

  /** Where the parts of a number stand. */
  lemma NumberParts(spaces: Key, sign: Key, digits: Key, rest: Key)
    requires IsNumber(spaces, sign, digits, rest)
    ensures var key := spaces + sign + digits + rest;
      var i, start, end := |spaces|, |spaces| + |sign|, |spaces| + |sign| + |digits|;
      && i < |key| && SkipSpace(key, 0) == i && SkipDigits(key, start) == end && key[start..end] == digits
      && (sign == [] ==> IsDigit(key[i])) && (sign != [] ==> key[i] == sign[0])
      && digits != [] && (sign == [] || sign == [43] || sign == [45])
  {
    var key := spaces + sign + digits + rest;
    var i, start, end := |spaces|, |spaces| + |sign|, |spaces| + |sign| + |digits|;
    assert forall k :: 0 <= k < i ==> key[k] == spaces[k];
    assert sign != [] ==> key[i] == sign[0];
    assert forall k :: start <= k < end ==> key[k] == digits[k - start];
    assert rest != [] ==> key[end] == rest[0];
    assert key[start] == digits[0] && IsDigit(digits[0]);
    SpacesEnd(key, 0, i);
    DigitsEnd(key, start, end);
  }

  lemma CastIs(v: int)
    ensures ToInt32(v) < 0 <==> v % TWO_32 >= TWO_31
    ensures ToInt32(v) >= 0 ==> ToInt32(v) == v % TWO_32
  {
  }

  lemma IndexOfParts(key: Key, sign: Key, end: nat)
    requires sign == [] || sign == [43] || sign == [45]
    requires var i := SkipSpace(key, 0);
      && i < |key| && (sign == [] ==> IsDigit(key[i])) && (sign != [] ==> key[i] == sign[0])
      && SkipDigits(key, i + |sign|) == end > i + |sign|
    ensures var digits := key[SkipSpace(key, 0) + |sign|..end];
      (forall c <- digits :: IsDigit(c)) &&
      var long := Signed(sign, Decimal(digits));
      ArrayIndex(key) ==
        if long > LONG_MAX || long < -LONG_MAX - 1 || long % TWO_32 >= TWO_31 then OutOfRange
        else if end < |key| then Junk
        else At(long % TWO_32)
  {
    hide SkipSpace, SkipDigits, Decimal, IsSpace, ToInt32;
    CastIs(Signed(sign, Decimal(key[SkipSpace(key, 0) + |sign|..end])));
  }

  /** Which element a number selects. The cast to a 32-bit int makes the code see it modulo 2^32, so
      what is refused is a number outside 64 bits, or one that is 2^31 or more modulo 2^32; a minus sign
      is refused by no test of its own. A number is not accepted with something behind it. */
  lemma DigitsSelect(spaces: Key, sign: Key, digits: Key, rest: Key)
    requires IsNumber(spaces, sign, digits, rest)
    ensures var long := Signed(sign, Decimal(digits));
      ArrayIndex(spaces + sign + digits + rest) ==
        if long > LONG_MAX || long < -LONG_MAX - 1 || long % TWO_32 >= TWO_31 then OutOfRange
        else if rest != [] then Junk
        else At(long % TWO_32)
  {
    hide *;
    NumberParts(spaces, sign, digits, rest);
    IndexOfParts(spaces + sign + digits + rest, sign, |spaces| + |sign| + |digits|);
  }

  /** Digits are the characters 48 to 57, and each is worth ten times less than the one before. */
  lemma DecimalStep(front: Key, digit: nat)
    requires digit < 10 && forall c <- front :: 48 <= c <= 57
    ensures var digits := front + [(48 + digit) as byte];
      (forall c <- digits :: IsDigit(c)) && Decimal(digits) == Decimal(front) * 10 + digit
    ensures Decimal([]) == 0
  {
    assert (front + [(48 + digit) as byte])[..|front|] == front;
  }

  lemma EmptySelects()
    ensures ArrayIndex([]) == At(0)
  {
  }

  /** The decimal digits of a number. */
  function Digits(v: nat): (r: Key)
    ensures r != [] && (forall c <- r :: IsDigit(c)) && Decimal(r) == v
  {
    if v < 10 then
      assert Decimal([]) == 0;
      [(48 + v) as byte]
    else
      var front, last := Digits(v / 10), (48 + v % 10) as byte;
      assert (front + [last])[..|front|] == front;
      front + [last]
  }

  lemma PlainNumber(sign: Key, v: nat)
    requires sign == [] || sign == [43] || sign == [45]
    ensures IsNumber([], sign, Digits(v), []) && Decimal(Digits(v)) == v
  {
  }

  /** A decimal number within 64 bits whose value modulo 2^32 is `n`. */
  lemma Selected(sign: Key, v: nat, n: nat)
    requires sign == [] || sign == [43] || sign == [45]
    requires -LONG_MAX - 1 <= Signed(sign, v) <= LONG_MAX && n < TWO_31 && Signed(sign, v) % TWO_32 == n
    ensures ArrayIndex(sign + Digits(v)) == At(n)
  {
    hide *;
    PlainNumber(sign, v);
    DigitsSelect([], sign, Digits(v), []);
    assert [] + sign + Digits(v) + [] == sign + Digits(v);
  }

  /** Three path elements that name no element of an array, and select one: 4294967296 the first,
      -4294967295 the second, and the empty string the first. */
  lemma IndexSurprises()
    ensures ArrayIndex([] + Digits(4294967296)) == At(0)
    ensures ArrayIndex([45] + Digits(4294967295)) == At(1)
    ensures ArrayIndex([]) == At(0)
  {
    hide Digits, SkipSpace, SkipDigits;
    Selected([], 4294967296, 0);
    Selected([45], 4294967295, 1);
    EmptySelects();
    hide ArrayIndex;
  }

  lemma TwoBytes(c: byte, d: byte)
    ensures [c] + [] + [d] + [] == [c, d] && [] + [c] + [d] + [] == [c, d] && [] + [] + [c, d] + [] == [c, d]
    ensures [c] + [d] == [c, d] && [] + [c] == [c]
  {
  }

  lemma OneIs()
    ensures IsDigit(49) && Decimal([49]) == 1
  {
    DecimalStep([], 1);
    TwoBytes(49, 49);
  }

  lemma TwoDigits(c: byte)
    requires 48 <= c <= 57
    ensures IsNumber([], [], [c, 49], []) && Signed([], Decimal([c, 49])) == 10 * (c as nat - 48) + 1
  {
    DecimalStep([], c as nat - 48);
    TwoBytes(c, 49);
    DecimalStep([c], 1);
    hide Decimal;
  }

  lemma BeforeOne(c: byte)
    ensures IsSpace(c) ==> IsNumber([c], [], [49], []) && Signed([], Decimal([49])) == 1
    ensures c == 43 ==> IsNumber([], [c], [49], []) && Signed([c], Decimal([49])) == 1
    ensures c == 45 ==> IsNumber([], [c], [49], []) && Signed([c], Decimal([49])) == -1
  {
    OneIs();
    hide Decimal;
  }

  lemma Selects(spaces: Key, sign: Key, digits: Key, key: Key, n: int)
    requires IsNumber(spaces, sign, digits, []) && Signed(sign, Decimal(digits)) == n && -1 <= n < 100
    requires spaces + sign + digits + [] == key
    ensures ArrayIndex(key) == if n < 0 then OutOfRange else At(n)
  {
    hide ArrayIndex, IsNumber, Signed, Decimal;
    DigitsSelect(spaces, sign, digits, []);
  }

  lemma OtherThenOne(c: byte)
    requires !IsSpace(c) && !IsDigit(c) && c != 43 && c != 45
    ensures ArrayIndex([c, 49]) == Junk
  {
    hide Decimal;
  }

  /** In front of a digit the code skips white space (9 to 13, and 32) and a plus sign. */
  lemma OneBehind(c: byte)
    ensures ArrayIndex([c, 49]) == At(1) <==> 9 <= c <= 13 || c == 32 || c == 43 || c == 48
  {
    hide ArrayIndex, IsNumber, Signed, Decimal;
    TwoBytes(c, 49);
    BeforeOne(c);
    if IsSpace(c) {
      Selects([c], [], [49], [c, 49], 1);
    } else if c == 43 || c == 45 {
      Selects([], [c], [49], [c, 49], if c == 43 then 1 else -1);
    } else if IsDigit(c) {
      TwoDigits(c);
      Selects([], [], [c, 49], [c, 49], 10 * (c as nat - 48) + 1);
    } else {
      OtherThenOne(c);
    }
  }

  // ---------------------------------------------------------------------------------------------
  // On bytes

  /** decode_one_follow. */
  function DecodeFollow(s: seq<byte>, offset: nat): (r: Option<Entry>)
    requires SectionOk(s)
    ensures r.Some? ==> r.value.next <= |s| && r.value.kind != TYPE_POINTER
  {
    match Decode(s, offset)
    case None => None
    case Some(e) =>
      if e.kind == TYPE_POINTER then
        match Decode(s, e.pointer)
        case None => None
        case Some(f) =>
          if f.kind == TYPE_POINTER then None
          else Some(if IsContainer(f) then f else f.(next := e.next))
      else Some(e)
  }

  function Followed(s: seq<byte>, offset: nat): (r: Lookup<Entry>)
    requires SectionOk(s)
    ensures r.Ok? ==> r.value.next <= |s|
  {
    match DecodeFollow(s, offset)
    case None => Err(InvalidData)
    case Some(e) => Ok(e)
  }

  /** The `index`-th of the elements that start at `offset`. */
  function LookupElement(s: seq<byte>, offset: nat, index: nat): (r: Lookup<Entry>)
    requires SectionOk(s) && offset <= |s|
    ensures r.Ok? ==> r.value.next <= |s|
    decreases index
  {
    if index == 0 then Followed(s, offset)
    else
      match Decode(s, offset)
      case None => Err(InvalidData)
      case Some(e) =>
        match Skip(s, e)
        case None => Err(InvalidData)
        case Some(next) => LookupElement(s, next, index - 1)
  }

  /** lookup_path_in_array. */
  function LookupArray(s: seq<byte>, e: Entry, key: Key): (r: Lookup<Entry>)
    requires SectionOk(s) && e.next <= |s|
    ensures r.Ok? ==> r.value.next <= |s|
  {
    match ArrayIndex(key)
    case OutOfRange => Err(InvalidLookupPath)
    case Junk => Err(PathDoesNotMatch)
    case At(n) => if n >= e.size then Err(PathDoesNotMatch) else LookupElement(s, e.next, n)
  }

  /** lookup_path_in_map: `n` pairs are left, from `offset`. */
  function LookupMap(s: seq<byte>, offset: nat, n: nat, key: Key): (r: Lookup<Entry>)
    requires SectionOk(s)
    ensures r.Ok? ==> r.value.next <= |s|
    decreases n
  {
    if n == 0 then Err(PathDoesNotMatch)
    else
      match DecodeFollow(s, offset)
      case None => Err(InvalidData)
      case Some(k) =>
        if k.kind != TYPE_UTF8_STRING then Err(InvalidData)
        else if k.payload == key then Followed(s, k.next)
        else
          match Decode(s, k.next)
          case None => Err(InvalidData)
          case Some(e) =>
            match Skip(s, e)
            case None => Err(InvalidData)
            case Some(next) => LookupMap(s, next, n - 1, key)
  }

  function LookupIn(s: seq<byte>, e: Entry, key: Key): (r: Lookup<Entry>)
    requires SectionOk(s) && e.next <= |s|
    ensures r.Ok? ==> r.value.next <= |s|
  {
    if e.kind == TYPE_ARRAY then LookupArray(s, e, key)
    else if e.kind == TYPE_MAP then LookupMap(s, e.next, e.size, key)
    else Err(PathDoesNotMatch)
  }

  function GetFrom(s: seq<byte>, e: Entry, path: seq<Key>): Lookup<Entry>
    requires SectionOk(s) && e.next <= |s|
    decreases |path|
  {
    if path == [] then Ok(e)
    else
      match LookupIn(s, e, path[0])
      case Err(error) => Err(error)
      case Ok(f) => GetFrom(s, f, path[1..])
  }

  /** MMDB_aget_value. */
  function GetValue(s: seq<byte>, offset: nat, path: seq<Key>): Lookup<Entry>
    requires SectionOk(s)
  {
    match DecodeFollow(s, offset)
    case None => Err(InvalidData)
    case Some(e) => GetFrom(s, e, path)
  }

  /** decode_one_follow on any bytes: a pointer (1) must lead to something that is no pointer. What it leads
      to is delivered, a scalar with the offset behind the pointer as the next one. */
  lemma FollowExactly(s: seq<byte>, offset: nat)
    requires SectionOk(s)
    ensures var first, r := Decode(s, offset), DecodeFollow(s, offset);
      && (first.Some? && first.value.kind != 1 ==> r == first)
      && (first.Some? && first.value.kind == 1 ==>
            var target := Decode(s, first.value.pointer);
            && (r.Some? <==> target.Some? && target.value.kind != 1)
            && (r.Some? && target.value.kind in {7, 11} ==> r == target)
            && (r.Some? && target.value.kind !in {7, 11} ==> r.value == target.value.(next := first.value.next)))
      && (first.None? ==> r.None?)
  {
    hide Decode;
  }

  /** Element `n` of an array, on any bytes: the one behind `n` skipped ones, or the error of skipping. */
  lemma {:induction false} ElementOnBytes(s: seq<byte>, offset: nat, n: nat)
    requires SectionOk(s) && offset <= |s|
    ensures var at := SkipItems(s, offset, n, false);
      LookupElement(s, offset, n) == if at.None? then Err(InvalidData) else Followed(s, at.value)
    decreases n
  {
    hide Decode, Skip, Followed;
    if n > 0 && Decode(s, offset).Some? {
      DecodedWithin(s, offset);
      var e := Decode(s, offset).value;
      SkippedWithin(s, e);
      if Skip(s, e).Some? {
        ElementOnBytes(s, Skip(s, e).value, n - 1);
      }
    }
  }

  /** Key `j` of a map lies behind `j` skipped pairs, and is a string (2) other than the one looked for. */
  predicate OtherKey(s: seq<byte>, offset: nat, j: nat, key: Key)
    requires SectionOk(s) && offset <= |s|
  {
    var at := SkipItems(s, offset, j, true);
    && at.Some? && DecodeFollow(s, at.value).Some?
    && DecodeFollow(s, at.value).value.kind == 2 && DecodeFollow(s, at.value).value.payload != key
  }

  lemma OtherKeyIs(s: seq<byte>, offset: nat, j: nat, key: Key)
    requires SectionOk(s) && offset <= |s|
    ensures OtherKey(s, offset, j, key) <==>
      var at := SkipItems(s, offset, j, true);
      && at.Some? && DecodeFollow(s, at.value).Some?
      && DecodeFollow(s, at.value).value.kind == 2 && DecodeFollow(s, at.value).value.payload != key
  {
  }

  /** Where the pair behind the first one begins, if that can be skipped. */
  function BehindPair(s: seq<byte>, offset: nat): (r: Option<nat>)
    requires SectionOk(s) && offset <= |s| && DecodeFollow(s, offset).Some?
    ensures r.Some? ==> r.value <= |s|
  {
    match Decode(s, DecodeFollow(s, offset).value.next)
    case None => None
    case Some(e) => Skip(s, e)
  }

  lemma MapGoesOn(s: seq<byte>, offset: nat, n: nat, key: Key)
    requires SectionOk(s) && offset <= |s| && DecodeFollow(s, offset).Some? && n > 0
    requires DecodeFollow(s, offset).value.kind == 2 && DecodeFollow(s, offset).value.payload != key
    ensures var next := BehindPair(s, offset);
      LookupMap(s, offset, n, key) == if next.None? then Err(InvalidData) else LookupMap(s, next.value, n - 1, key)
  {
    hide Decode, Skip, DecodeFollow, Followed;
  }

  lemma SkipGoesOn(s: seq<byte>, offset: nat, n: nat)
    requires SectionOk(s) && offset <= |s| && DecodeFollow(s, offset).Some? && n > 0
    requires DecodeFollow(s, offset).value.kind == 2
    ensures var next := BehindPair(s, offset);
      SkipItems(s, offset, n, true) == if next.None? then None else SkipItems(s, next.value, n - 1, true)
  {
    FollowExactly(s, offset);
    hide Decode, Skip, DecodeFollow;
  }

  lemma NoPairSkipped(s: seq<byte>, offset: nat, key: Key)
    requires SectionOk(s) && offset <= |s|
    ensures SkipItems(s, offset, 0, true) == Some(offset) && LookupMap(s, offset, 0, key) == Err(PathDoesNotMatch)
  {
  }

  lemma MapStarts(s: seq<byte>, offset: nat, n: nat, key: Key)
    requires SectionOk(s) && n > 0
    ensures var k := DecodeFollow(s, offset);
      && (k.None? || k.value.kind != 2 ==> LookupMap(s, offset, n, key) == Err(InvalidData))
      && (k.Some? && k.value.kind == 2 && k.value.payload == key ==>
            LookupMap(s, offset, n, key) == Followed(s, k.value.next))
  {
    hide Decode, Skip, DecodeFollow, Followed;
  }

  /** The search of a map of `n` pairs, on any bytes, by its first key that does not merely have another
      name: that names its value, or is an error; so is what cannot be skipped. */
  lemma {:induction false} MapOnBytes(s: seq<byte>, offset: nat, n: nat, key: Key, i: nat)
    requires SectionOk(s) && offset <= |s| && i <= n
    requires forall j :: 0 <= j < i ==> OtherKey(s, offset, j, key)
    ensures var at := SkipItems(s, offset, i, true);
      && (at.None? ==> LookupMap(s, offset, n, key) == Err(InvalidData))
      && (at.Some? && i == n ==> LookupMap(s, offset, n, key) == Err(PathDoesNotMatch))
      && (at.Some? && i < n ==>
            var k := DecodeFollow(s, at.value);
            && (k.None? || k.value.kind != 2 ==> LookupMap(s, offset, n, key) == Err(InvalidData))
            && (k.Some? && k.value.kind == 2 && k.value.payload == key ==>
                  LookupMap(s, offset, n, key) == Followed(s, k.value.next)))
    decreases i
  {
    hide *;
    NoPairSkipped(s, offset, key);
    if i == 0 {
      if n > 0 {
        MapStarts(s, offset, n, key);
      }
    } else {
      assert OtherKey(s, offset, 0, key);
      OtherKeyIs(s, offset, 0, key);
      MapGoesOn(s, offset, n, key);
      SkipGoesOn(s, offset, i);
      var next := BehindPair(s, offset);
      if next.Some? {
        forall j | 0 <= j < i - 1
          ensures OtherKey(s, next.value, j, key)
        {
          assert OtherKey(s, offset, j + 1, key);
          OtherKeyIs(s, offset, j + 1, key);
          OtherKeyIs(s, next.value, j, key);
          SkipGoesOn(s, offset, j + 1);
        }
        MapOnBytes(s, next.value, n - 1, key, i - 1);
      }
    }
  }

  // ---------------------------------------------------------------------------------------------
  // On trees

  function Resolve(t: Tree): Tree {
    if t.Pointer? then t.target else t
  }

  /** The entry of a value as decode_one_follow delivers it. */
  function Seen(t: Tree): Entry {
    if t.Pointer? && !t.target.Container? then t.target.entry.(next := t.entry.next) else Resolve(t).entry
  }

  function Nth(items: Items, n: nat): Tree
    requires n < Count(items)
  {
    if n == 0 then items.head else Nth(items.tail, n - 1)
  }

  /** The value of the first key that matches; keys must be strings. */
  function FirstMatch(items: Items, key: Key): Lookup<Tree> {
    if items.Nil? || items.tail.Nil? then Err(PathDoesNotMatch)
    else
      var k := Resolve(items.head).entry;
      if k.kind != TYPE_UTF8_STRING then Err(InvalidData)
      else if k.payload == key then Ok(items.tail.head)
      else FirstMatch(items.tail.tail, key)
  }

  /** One step down a tree, with a pointer at the top resolved. */
  function TreeStep(t: Tree, key: Key): Lookup<Tree> {
    var u := Resolve(t);
    if !u.Container? then Err(PathDoesNotMatch)
    else if u.entry.kind == TYPE_MAP then FirstMatch(u.items, key)
    else
      match ArrayIndex(key)
      case OutOfRange => Err(InvalidLookupPath)
      case Junk => Err(PathDoesNotMatch)
      case At(n) => if n >= Count(u.items) then Err(PathDoesNotMatch) else Ok(Nth(u.items, n))
  }

  function TreeWalk(t: Tree, path: seq<Key>): Lookup<Tree>
    decreases |path|
  {
    if path == [] then Ok(t)
    else
      match TreeStep(t, path[0])
      case Err(error) => Err(error)
      case Ok(u) => TreeWalk(u, path[1..])
  }

  /** One path element, on a tree: nothing lies below a scalar; in an array (11) it must be the number of an
      element; what a map (7) holds is what FirstMatch says. */
  lemma StepMeaning(t: Tree, key: Key)
    ensures var u, index := Resolve(t), ArrayIndex(key);
      && (!u.Container? ==> TreeStep(t, key) == Err(PathDoesNotMatch))
      && (u.Container? && u.entry.kind == 7 ==> TreeStep(t, key) == FirstMatch(u.items, key))
      && (u.Container? && u.entry.kind != 7 ==>
            && (index.OutOfRange? ==> TreeStep(t, key) == Err(InvalidLookupPath))
            && (index.Junk? || (index.At? && index.n >= Count(u.items)) ==> TreeStep(t, key) == Err(PathDoesNotMatch))
            && (index.At? && index.n < Count(u.items) ==> TreeStep(t, key) == Ok(Nth(u.items, index.n))))
    ensures Seen(t).(next := 0) == Resolve(t).entry.(next := 0)
    ensures Resolve(t) == if t.Pointer? then t.target else t
  {
    hide ArrayIndex;
  }

  /** A path is taken element by element, from the front. */
  lemma {:induction false} WalkInParts(t: Tree, p: seq<Key>, q: seq<Key>)
    ensures TreeWalk(t, []) == Ok(t) && forall key :: TreeWalk(t, [key]) == TreeStep(t, key)
    ensures TreeWalk(t, p + q) == if TreeWalk(t, p).Ok? then TreeWalk(TreeWalk(t, p).value, q) else TreeWalk(t, p)
    decreases |p|
  {
    hide TreeStep;
    forall key: Key
      ensures TreeWalk(t, [key]) == TreeStep(t, key)
    {
      assert [key][1..] == [];
    }
    if p == [] {
      assert p + q == q;
    } else {
      assert (p + q)[0] == p[0] && (p + q)[1..] == p[1..] + q;
      if TreeStep(t, p[0]).Ok? {
        WalkInParts(TreeStep(t, p[0]).value, p[1..], q);
      }
    }
  }

  predicate Named(items: Items, i: nat) {
    2 * i < Count(items) && Resolve(Nth(items, 2 * i)).entry.kind == TYPE_UTF8_STRING
  }

  /** What FirstMatch means: the keys before the match are strings other than the one looked for. */
  lemma {:induction false} FirstMatchMeaning(items: Items, key: Key, n: nat)
    requires 2 * n + 1 < Count(items)
    requires forall i :: 0 <= i < n ==> Named(items, i) && Resolve(Nth(items, 2 * i)).entry.payload != key
    ensures Named(items, n) && Resolve(Nth(items, 2 * n)).entry.payload == key ==>
      FirstMatch(items, key) == Ok(Nth(items, 2 * n + 1))
    ensures !Named(items, n) ==> FirstMatch(items, key) == Err(InvalidData)
    ensures Named(items, n) && Resolve(Nth(items, 2 * n)).entry.payload != key && 2 * n + 2 == Count(items) ==>
      FirstMatch(items, key) == Err(PathDoesNotMatch)
    decreases n
  {
    if n == 0 {
      assert Count(items) == 2 ==> items.tail.tail == Nil;
    } else {
      var rest := items.tail.tail;
      assert Named(items, 0) && Resolve(Nth(items, 0)).entry.payload != key;
      forall i | 0 <= i < n - 1
        ensures Named(rest, i) && Resolve(Nth(rest, 2 * i)).entry.payload != key
      {
        assert Named(items, i + 1) && Nth(items, 2 * (i + 1)) == Nth(rest, 2 * i);
      }
      FirstMatchMeaning(rest, key, n - 1);
      assert Nth(items, 2 * n) == Nth(rest, 2 * (n - 1)) && Nth(items, 2 * n + 1) == Nth(rest, 2 * (n - 1) + 1);
    }
  }

  /** No key of a map is an inline container, also behind pointers. */
  ghost predicate PlainDeep(t: Tree) {
    match t
    case Scalar(_) => true
    case Pointer(_, target) => PlainDeep(target)
    case Container(e, items) => PlainDeepItems(items, e.kind == TYPE_MAP)
  }

  ghost predicate PlainDeepItems(items: Items, keyed: bool)
    decreases items
  {
    match items
    case Nil => true
    case More(head, tail) =>
      if keyed && tail.More? then !head.Container? && PlainDeep(tail.head) && PlainDeepItems(tail.tail, true)
      else PlainDeep(head) && PlainDeepItems(tail, keyed)
  }

  lemma {:induction false} DeepIsPlain(t: Tree)
    requires PlainDeep(t)
    ensures PlainKeys(t)
    decreases t
  {
    if t.Container? {
      DeepItemsArePlain(t.items, t.entry.kind == TYPE_MAP);
    }
  }

  lemma {:induction false} DeepItemsArePlain(items: Items, keyed: bool)
    requires PlainDeepItems(items, keyed)
    ensures PlainItems(items, keyed)
    decreases items
  {
    if items.More? {
      if keyed && items.tail.More? {
        DeepIsPlain(items.tail.head);
        DeepItemsArePlain(items.tail.tail, true);
      } else {
        DeepIsPlain(items.head);
        DeepItemsArePlain(items.tail, keyed);
      }
    }
  }

  // ---------------------------------------------------------------------------------------------
  // The lookup on bytes is the walk on trees

  lemma FollowIsSeen(s: seq<byte>, offset: nat, t: Tree)
    requires SectionOk(s) && Denotes(s, offset, t)
    ensures DecodeFollow(s, offset) == Some(Seen(t))
  {
  }

  /** The outcome of a lookup, given what it should find. */
  ghost predicate Agrees(s: seq<byte>, r: Lookup<Entry>, expected: Lookup<Tree>)
    requires SectionOk(s)
  {
    match expected
    case Err(error) => r == Err(error)
    case Ok(u) => r == Ok(Seen(u)) && PlainDeep(u) && exists offset :: Denotes(s, offset, u)
  }

  /** One element of an array passed over. */
  lemma ElementSkipped(s: seq<byte>, offset: nat, items: Items)
    requires SectionOk(s) && DenoteItems(s, offset, items) && PlainDeepItems(items, false) && items.More?
    ensures var value, rest := items.head, items.tail;
      && Denotes(s, offset, value) && PlainDeep(value) && EndOf(value) <= |s|
      && DenoteItems(s, EndOf(value), rest) && PlainDeepItems(rest, false)
      && Decode(s, offset) == Some(value.entry) && Skip(s, value.entry) == Some(EndOf(value))
      && Count(items) == 1 + Count(rest)
  {
    hide Skip, Decode, EndOf;
    EndWithin(s, offset, items.head);
    DeepIsPlain(items.head);
    SkipIsEnd(s, offset, items.head);
  }

  lemma ElementStep(s: seq<byte>, offset: nat, n: nat)
    requires SectionOk(s) && offset <= |s|
    ensures n == 0 ==> LookupElement(s, offset, n) == Followed(s, offset)
    ensures n > 0 && Decode(s, offset) != None && Skip(s, Decode(s, offset).value) != None ==>
      LookupElement(s, offset, n) == LookupElement(s, Skip(s, Decode(s, offset).value).value, n - 1)
  {
  }

  lemma NthStep(items: Items, n: nat)
    requires n < Count(items)
    ensures items.More? && Nth(items, n) == if n == 0 then items.head else Nth(items.tail, n - 1)
  {
  }

  lemma ValueSeen(s: seq<byte>, offset: nat, t: Tree)
    requires SectionOk(s) && Denotes(s, offset, t) && PlainDeep(t)
    ensures Agrees(s, Followed(s, offset), Ok(t))
  {
    FollowIsSeen(s, offset, t);
  }

  lemma {:induction false} ElementIsNth(s: seq<byte>, offset: nat, items: Items, n: nat)
    requires SectionOk(s) && offset <= |s| && DenoteItems(s, offset, items) && PlainDeepItems(items, false)
    requires n < Count(items)
    ensures Agrees(s, LookupElement(s, offset, n), Ok(Nth(items, n)))
    decreases n
  {
    hide *;
    NthStep(items, n);
    ElementSkipped(s, offset, items);
    ElementStep(s, offset, n);
    if n == 0 {
      ValueSeen(s, offset, items.head);
    } else {
      ElementIsNth(s, EndOf(items.head), items.tail, n - 1);
    }
  }

  /** One pair of a map passed over. */
  lemma PairSkipped(s: seq<byte>, offset: nat, items: Items, n: nat, key: Key)
    requires SectionOk(s) && offset <= |s| && DenoteItems(s, offset, items) && PlainDeepItems(items, true)
    requires Count(items) == 2 * n > 0
    ensures items.More? && items.tail.More?
    ensures var k, value, rest := items.head, items.tail.head, items.tail.tail;
      && Denotes(s, offset, k) && !k.Container? && Denotes(s, EndOf(k), value) && PlainDeep(value)
      && EndOf(k) <= |s| && EndOf(value) <= |s|
      && DenoteItems(s, EndOf(value), rest) && PlainDeepItems(rest, true) && Count(rest) == 2 * (n - 1)
      && Skip(s, value.entry) == Some(EndOf(value)) && Decode(s, EndOf(k)) == Some(value.entry)
  {
    assert items.More? && items.tail.More?;
    var k, value := items.head, items.tail.head;
    hide Skip, Decode, EndOf;
    EndWithin(s, offset, k);
    EndWithin(s, EndOf(k), value);
    DeepIsPlain(value);
    SkipIsEnd(s, EndOf(k), value);
  }

  /** A key seen through its pointer ends where the key itself ends, unless it is a container. */
  lemma KeySeen(s: seq<byte>, offset: nat, k: Tree)
    requires SectionOk(s) && Denotes(s, offset, k) && !k.Container?
    ensures DecodeFollow(s, offset) == Some(Seen(k))
    ensures Seen(k).kind == Resolve(k).entry.kind && Seen(k).payload == Resolve(k).entry.payload
    ensures Seen(k).kind == TYPE_UTF8_STRING ==> Seen(k).next == EndOf(k)
  {
    FollowIsSeen(s, offset, k);
  }

  lemma MapStep(s: seq<byte>, offset: nat, n: nat, key: Key, k: Entry, e: Entry, next: nat)
    requires SectionOk(s) && n > 0 && DecodeFollow(s, offset) == Some(k)
    requires k.kind == TYPE_UTF8_STRING ==> Decode(s, k.next) == Some(e) && Skip(s, e) == Some(next)
    ensures LookupMap(s, offset, n, key) ==
      if k.kind != TYPE_UTF8_STRING then Err(InvalidData)
      else if k.payload == key then Followed(s, k.next)
      else LookupMap(s, next, n - 1, key)
  {
  }

  lemma FirstStep(items: Items, key: Key)
    requires items.More? && items.tail.More?
    ensures var k := Resolve(items.head).entry;
      FirstMatch(items, key) ==
        if k.kind != TYPE_UTF8_STRING then Err(InvalidData)
        else if k.payload == key then Ok(items.tail.head)
        else FirstMatch(items.tail.tail, key)
  {
  }

  lemma NoPairs(s: seq<byte>, offset: nat, items: Items, key: Key)
    requires SectionOk(s) && Count(items) == 0
    ensures Agrees(s, LookupMap(s, offset, 0, key), FirstMatch(items, key))
  {
    assert items.Nil?;
  }

  lemma NotAMatch(s: seq<byte>, r: Lookup<Entry>, expected: Lookup<Tree>)
    requires SectionOk(s)
    ensures r.Err? && expected.Err? && r.error == expected.error ==> Agrees(s, r, expected)
  {
  }

  lemma {:induction false} MapIsFirst(s: seq<byte>, offset: nat, items: Items, n: nat, key: Key)
    requires SectionOk(s) && offset <= |s| && DenoteItems(s, offset, items) && PlainDeepItems(items, true)
    requires Count(items) == 2 * n
    ensures Agrees(s, LookupMap(s, offset, n, key), FirstMatch(items, key))
    decreases n
  {
    hide *;
    if n == 0 {
      NoPairs(s, offset, items, key);
    } else {
      PairSkipped(s, offset, items, n, key);
      var k, value, rest := items.head, items.tail.head, items.tail.tail;
      FirstStep(items, key);
      KeySeen(s, offset, k);
      ValueSeen(s, EndOf(k), value);
      MapStep(s, offset, n, key, Seen(k), value.entry, EndOf(value));
      MapIsFirst(s, EndOf(value), rest, n - 1, key);
      NotAMatch(s, LookupMap(s, offset, n, key), FirstMatch(items, key));
    }
  }

  lemma StepIsStep(s: seq<byte>, offset: nat, t: Tree, key: Key)
    requires SectionOk(s) && Denotes(s, offset, t) && PlainDeep(t)
    ensures Seen(t).next <= |s| && Agrees(s, LookupIn(s, Seen(t), key), TreeStep(t, key))
  {
    var u := Resolve(t);
    var at := if t.Pointer? then t.entry.pointer else offset;
    FollowIsSeen(s, offset, t);
    if u.Container? {
      EndWithin(s, at, u);
      if u.entry.kind == TYPE_MAP {
        MapIsFirst(s, u.entry.next, u.items, u.entry.size, key);
      } else if ArrayIndex(key).At? && ArrayIndex(key).n < Count(u.items) {
        ElementIsNth(s, u.entry.next, u.items, ArrayIndex(key).n);
      }
    }
  }

  lemma {:induction false} GetFromIsWalk(s: seq<byte>, offset: nat, t: Tree, path: seq<Key>)
    requires SectionOk(s) && Denotes(s, offset, t) && PlainDeep(t)
    ensures Seen(t).next <= |s| && Agrees(s, GetFrom(s, Seen(t), path), TreeWalk(t, path))
    decreases |path|
  {
    FollowIsSeen(s, offset, t);
    if path != [] {
      StepIsStep(s, offset, t, path[0]);
      if TreeStep(t, path[0]).Ok? {
        var u := TreeStep(t, path[0]).value;
        var at :| Denotes(s, at, u);
        GetFromIsWalk(s, at, u, path[1..]);
      }
    }
  }

  /** On a well-formed value, MMDB_aget_value delivers the entry of the node that walking the tree
      reaches, with pointers resolved, and fails exactly when that walk fails, with the same error. */
  lemma GetValueIsWalk(s: seq<byte>, offset: nat, t: Tree, path: seq<Key>)
    requires SectionOk(s) && Denotes(s, offset, t) && PlainDeep(t)
    ensures match TreeWalk(t, path)
      case Err(error) => GetValue(s, offset, path) == Err(error)
      case Ok(u) => GetValue(s, offset, path) == Ok(Seen(u))
  {
    FollowIsSeen(s, offset, t);
    GetFromIsWalk(s, offset, t, path);
  }
}
