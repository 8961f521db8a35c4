/** The area portals of qcommon/cmodel.c: flood fill over open portals, and the questions answered
    from the flood numbers. */
module AreaPortals {
  const MAX_MAP_AREAS := 256
  const MAX_MAP_AREAPORTALS := 1024

  /** One entry of an area's portal list. */
  datatype Portal = Portal(portal: nat, other: nat)

  /** The loaded map: for every area its portals. Area 0 is not used. */
  type AreaList = seq<seq<Portal>>

  datatype Area = Area(first: nat, count: nat)

  /** Portals lead between used areas, and every portal is listed on both sides. */
  ghost predicate Symmetric(areas: AreaList) {
    && 1 <= |areas| <= MAX_MAP_AREAS
    && forall a, i :: 1 <= a < |areas| && 0 <= i < |areas[a]| ==>
         var p := areas[a][i];
         1 <= p.other < |areas| && p.portal < MAX_MAP_AREAPORTALS && Portal(p.portal, a) in areas[p.other]
  }

  /** The portals of each area, cut out of the one array that holds them all. */
  ghost function AreasOf(list: seq<Area>, portals: seq<Portal>): (r: AreaList)
    requires forall a <- list :: a.first + a.count <= |portals|
    ensures |r| == |list|
  {
    seq(|list|, a requires 0 <= a < |list| => portals[list[a].first..list[a].first + list[a].count])
  }

  ghost predicate GoodMap(list: seq<Area>, portals: seq<Portal>) {
    && (forall a <- list :: a.first + a.count <= |portals|)
    && |portals| <= MAX_MAP_AREAS && Symmetric(AreasOf(list, portals))
  }

  /** Areas `a` and `b` share an open portal. */
  ghost predicate Edge(areas: AreaList, open: seq<bool>, a: nat, b: nat) {
    && 1 <= a < |areas|
    && exists i :: 0 <= i < |areas[a]| && areas[a][i].other == b
                && areas[a][i].portal < |open| && open[areas[a][i].portal]
  }

  ghost predicate Step(areas: AreaList, open: seq<bool>, path: seq<nat>, k: nat)
    requires k + 1 < |path|
  {
    Edge(areas, open, path[k], path[k + 1])
  }

  ghost predicate Path(areas: AreaList, open: seq<bool>, path: seq<nat>) {
    && path != []
    && forall k :: 0 <= k < |path| - 1 ==> Step(areas, open, path, k)
  }

  /** One can walk from `a` to `b` through open portals. */
  ghost predicate Connected(areas: AreaList, open: seq<bool>, a: nat, b: nat) {
    exists path :: Path(areas, open, path) && path[0] == a && path[|path| - 1] == b
  }

  lemma EdgeBack(areas: AreaList, open: seq<bool>, a: nat, b: nat)
    requires Symmetric(areas) && Edge(areas, open, a, b)
    ensures 1 <= b < |areas| && Edge(areas, open, b, a)
  {
    var i :| 0 <= i < |areas[a]| && areas[a][i].other == b && areas[a][i].portal < |open| && open[areas[a][i].portal];
    var p := areas[a][i];
    var j :| 0 <= j < |areas[b]| && areas[b][j] == Portal(p.portal, a);
  }

  lemma SelfConnected(areas: AreaList, open: seq<bool>, a: nat)
    ensures Connected(areas, open, a, a)
  {
    assert Path(areas, open, [a]);
  }

  lemma ConnectStep(areas: AreaList, open: seq<bool>, a: nat, b: nat, c: nat)
    requires Connected(areas, open, a, b) && Edge(areas, open, b, c)
    ensures Connected(areas, open, a, c)
  {
    var path :| Path(areas, open, path) && path[0] == a && path[|path| - 1] == b;
    var more := path + [c];
    forall k | 0 <= k < |more| - 1 ensures Step(areas, open, more, k) {
      if k < |path| - 1 {
        assert Step(areas, open, path, k);
      }
    }
    assert Path(areas, open, more);
  }

  /** Walking on, and walking back. */
  lemma {:induction false} ConnectedJoin(areas: AreaList, open: seq<bool>, a: nat, b: nat, path: seq<nat>)
    requires Connected(areas, open, a, b) && Path(areas, open, path) && path[0] == b
    ensures Connected(areas, open, a, path[|path| - 1])
    decreases |path|
  {
    if |path| > 1 {
      var front := path[..|path| - 1];
      forall k | 0 <= k < |front| - 1 ensures Step(areas, open, front, k) {
        assert Step(areas, open, path, k);
      }
      ConnectedJoin(areas, open, a, b, front);
      assert Step(areas, open, path, |path| - 2);
      ConnectStep(areas, open, a, path[|path| - 2], path[|path| - 1]);
    }
  }

  lemma {:induction false} PathBack(areas: AreaList, open: seq<bool>, path: seq<nat>)
    requires Symmetric(areas) && Path(areas, open, path)
    ensures Connected(areas, open, path[|path| - 1], path[0])
    decreases |path|
  {
    if |path| == 1 {
      SelfConnected(areas, open, path[0]);
    } else {
      var rest := path[1..];
      forall k | 0 <= k < |rest| - 1 ensures Step(areas, open, rest, k) {
        assert Step(areas, open, path, k + 1);
      }
      PathBack(areas, open, rest);
      assert Step(areas, open, path, 0);
      EdgeBack(areas, open, path[0], path[1]);
      ConnectStep(areas, open, path[|path| - 1], path[1], path[0]);
    }
  }

  /** Connectedness is an equivalence, as the code's "equal flood numbers" demands. */
  lemma ConnectedEquivalence(areas: AreaList, open: seq<bool>, a: nat, b: nat, c: nat)
    requires Symmetric(areas) && Connected(areas, open, a, b)
    ensures Connected(areas, open, b, a)
    ensures Connected(areas, open, b, c) ==> Connected(areas, open, a, c)
  {
    var path :| Path(areas, open, path) && path[0] == a && path[|path| - 1] == b;
    PathBack(areas, open, path);
    if Connected(areas, open, b, c) {
      var on :| Path(areas, open, on) && on[0] == b && on[|on| - 1] == c;
      ConnectedJoin(areas, open, a, b, on);
    }
  }

  // ---------------------------------------------------------------------------------------------
  // Flood numbers

  /** The areas flooded so far in the current round, with their flood numbers. */
  type Flood = map<nat, nat>

  /** Every open portal of an area in `within` leads to an area flooded with the same number. */
  ghost predicate Closed(areas: AreaList, open: seq<bool>, flood: Flood, within: set<nat>) {
    forall a, b :: a in within && Edge(areas, open, a, b) ==> a in flood && b in flood && flood[b] == flood[a]
  }

  /** Areas with equal numbers are connected. */
  ghost predicate Together(areas: AreaList, open: seq<bool>, flood: Flood) {
    forall a, b :: a in flood && b in flood && flood[a] == flood[b] ==> Connected(areas, open, a, b)
  }

  ghost predicate AllUsed(areas: AreaList, flood: Flood) {
    forall a: nat :: a in flood <==> 1 <= a < |areas|
  }

  /** A walk cannot leave a closed flood or change its number. */
  lemma {:induction false} WalkStaysFlooded(areas: AreaList, open: seq<bool>, flood: Flood, path: seq<nat>)
    requires Closed(areas, open, flood, flood.Keys) && Path(areas, open, path) && path[0] in flood
    ensures path[|path| - 1] in flood && flood[path[|path| - 1]] == flood[path[0]]
    decreases |path|
  {
    if |path| > 1 {
      var front := path[..|path| - 1];
      forall k | 0 <= k < |front| - 1 ensures Step(areas, open, front, k) {
        assert Step(areas, open, path, k);
      }
      WalkStaysFlooded(areas, open, flood, front);
      assert Step(areas, open, path, |path| - 2);
    }
  }

  lemma FloodMeaning(areas: AreaList, open: seq<bool>, flood: Flood, a: nat, b: nat)
    requires Symmetric(areas) && Closed(areas, open, flood, flood.Keys) && Together(areas, open, flood)
    requires a in flood && b in flood
    ensures flood[a] == flood[b] <==> Connected(areas, open, a, b)
  {
    if Connected(areas, open, a, b) {
      var path :| Path(areas, open, path) && path[0] == a && path[|path| - 1] == b;
      WalkStaysFlooded(areas, open, flood, path);
    }
  }

  /** What flooding `area` with `num` does: the flood grows by areas connected to `area`. */
  ghost predicate Grown(areas: AreaList, open: seq<bool>, before: Flood, after: Flood, area: nat, num: nat) {
    && (forall a :: a in before ==> a in after && after[a] == before[a])
    && (forall a :: a in after && a !in before ==> after[a] == num && Connected(areas, open, area, a))
    && area in after && after[area] == num
  }

  /** The areas flooded with other numbers are closed. */
  ghost predicate OthersClosed(areas: AreaList, open: seq<bool>, flood: Flood, num: nat) {
    forall a, b :: a in flood && flood[a] != num && Edge(areas, open, a, b) ==> b in flood && flood[b] == flood[a]
  }

  /** The "reflooded" error cannot occur: the flood never reaches an area with another number. */
  lemma NeverReflooded(areas: AreaList, open: seq<bool>, flood: Flood, num: nat, a: nat, b: nat)
    requires Symmetric(areas) && OthersClosed(areas, open, flood, num)
    requires a in flood && flood[a] == num && Edge(areas, open, a, b)
    ensures b in flood ==> flood[b] == num
  {
    EdgeBack(areas, open, a, b);
  }

  lemma GrowOn(areas: AreaList, open: seq<bool>, s0: Flood, s: Flood, s': Flood, area: nat, other: nat, num: nat)
    requires Symmetric(areas) && Edge(areas, open, area, other)
    requires Grown(areas, open, s0, s, area, num) && Grown(areas, open, s, s', other, num)
    ensures Grown(areas, open, s0, s', area, num)
  {
    SelfConnected(areas, open, area);
    ConnectStep(areas, open, area, area, other);
    forall a | a in s' && a !in s ensures Connected(areas, open, area, a) {
      ConnectedEquivalence(areas, open, area, other, a);
    }
  }

  lemma CloseOn(areas: AreaList, open: seq<bool>, s: Flood, s': Flood, area: nat, other: nat, num: nat, done: set<nat>)
    requires Grown(areas, open, s, s', other, num)
    requires Closed(areas, open, s, done) && Closed(areas, open, s', s'.Keys - s.Keys)
    ensures Closed(areas, open, s', done + (s'.Keys - s.Keys))
  {
  }

  lemma OthersStayClosed(areas: AreaList, open: seq<bool>, s: Flood, s': Flood, other: nat, num: nat)
    requires OthersClosed(areas, open, s, num) && Grown(areas, open, s, s', other, num)
    ensures OthersClosed(areas, open, s', num)
  {
  }

  /** The first `n` portals of the area, where open, lead to areas flooded with `num`. */
  ghost predicate Followed(areas: AreaList, open: seq<bool>, flood: Flood, area: nat, num: nat, n: nat) {
    && area < |areas|
    && forall j :: 0 <= j < n && j < |areas[area]| && areas[area][j].portal < |open| && open[areas[area][j].portal] ==>
         areas[area][j].other in flood && flood[areas[area][j].other] == num
  }

  /** The state of the flood while the portals of `area` are looked at. */
  ghost predicate Looping(areas: AreaList, open: seq<bool>, s0: Flood, s: Flood, area: nat, num: nat, n: nat) {
    && Grown(areas, open, s0, s, area, num) && OthersClosed(areas, open, s, num)
    && Closed(areas, open, s, s.Keys - s0.Keys - {area})
    && Followed(areas, open, s, area, num, n)
  }

  /** One portal of `area` taken: everything the loop over the portals keeps. */
  lemma PortalTaken(areas: AreaList, open: seq<bool>, s0: Flood, s: Flood, s': Flood, area: nat, num: nat, n: nat)
    requires Symmetric(areas) && area < |areas| && n < |areas[area]|
    requires Edge(areas, open, area, areas[area][n].other)
    requires Looping(areas, open, s0, s, area, num, n)
    requires Grown(areas, open, s, s', areas[area][n].other, num)
    requires Closed(areas, open, s', s'.Keys - s.Keys)
    ensures Looping(areas, open, s0, s', area, num, n + 1)
  {
    hide Edge, Connected, Symmetric;
    var other := areas[area][n].other;
    GrowOn(areas, open, s0, s, s', area, other, num);
    CloseOn(areas, open, s, s', area, other, num, s.Keys - s0.Keys - {area});
    OthersStayClosed(areas, open, s, s', other, num);
    assert s'.Keys - s0.Keys - {area} == (s.Keys - s0.Keys - {area}) + (s'.Keys - s.Keys);
  }

  lemma LoopStarts(areas: AreaList, open: seq<bool>, s0: Flood, area: nat, num: nat)
    requires area < |areas| && area !in s0 && OthersClosed(areas, open, s0, num)
    ensures Looping(areas, open, s0, s0[area := num], area, num, 0)
  {
    SelfConnected(areas, open, area);
  }

  lemma PortalClosed(areas: AreaList, open: seq<bool>, s0: Flood, s: Flood, area: nat, num: nat, n: nat)
    requires Looping(areas, open, s0, s, area, num, n) && n < |areas[area]|
    requires areas[area][n].portal < |open| && !open[areas[area][n].portal]
    ensures Looping(areas, open, s0, s, area, num, n + 1)
  {
  }

  lemma LoopEnds(areas: AreaList, open: seq<bool>, s0: Flood, s: Flood, area: nat, num: nat)
    requires area < |areas| && Looping(areas, open, s0, s, area, num, |areas[area]|)
    ensures Grown(areas, open, s0, s, area, num) && Closed(areas, open, s, s.Keys - s0.Keys)
  {
  }

  /** The call for the next open portal meets its precondition. */
  lemma MayFlood(areas: AreaList, open: seq<bool>, s0: Flood, s: Flood, area: nat, num: nat, n: nat)
    requires Symmetric(areas) && 1 <= area < |areas| && n < |areas[area]| && Looping(areas, open, s0, s, area, num, n)
    requires areas[area][n].portal < |open| && open[areas[area][n].portal]
    ensures var other := areas[area][n].other;
      && Edge(areas, open, area, other) && 1 <= other < |areas| && OthersClosed(areas, open, s, num)
      && (other in s ==> s[other] == num)
  {
    NeverReflooded(areas, open, s, num, area, areas[area][n].other);
  }

  /** The areas not yet flooded, which every call of FloodArea_r that floods makes fewer. */
  ghost function Unflooded(n: nat, flood: Flood): set<nat> {
    set a: nat | a < n && a !in flood
  }

  lemma FewerUnflooded(areas: AreaList, open: seq<bool>, s0: Flood, s: Flood, area: nat, num: nat, n: nat)
    requires area < |areas| && area !in s0 && Looping(areas, open, s0, s, area, num, n)
    ensures Unflooded(|areas|, s) < Unflooded(|areas|, s0)
  {
    assert area in Unflooded(|areas|, s0) && area !in Unflooded(|areas|, s);
  }

  /** A whole flood with a new number keeps the flood closed and its numbers apart. */
  lemma RoundAdded(areas: AreaList, open: seq<bool>, s: Flood, s': Flood, area: nat, num: nat)
    requires Symmetric(areas) && Grown(areas, open, s, s', area, num)
    requires Closed(areas, open, s, s.Keys) && Together(areas, open, s) && num !in s.Values
    requires Closed(areas, open, s', s'.Keys - s.Keys)
    ensures Closed(areas, open, s', s'.Keys) && Together(areas, open, s')
    ensures forall v :: v in s'.Values ==> v in s.Values || v == num
  {
    CloseOn(areas, open, s, s', area, area, num, s.Keys);
    assert s.Keys + (s'.Keys - s.Keys) == s'.Keys;
    forall a, b | a in s' && b in s' && s'[a] == s'[b] ensures Connected(areas, open, a, b) {
      if a in s || b in s {
        assert a in s ==> s[a] in s.Values;
        assert b in s ==> s[b] in s.Values;
      } else {
        ConnectedEquivalence(areas, open, area, a, b);
        ConnectedEquivalence(areas, open, a, area, b);
      }
    }
  }

  /** The state of the flood when the areas before `i` are done, with numbers 1 to `num`. */
  ghost predicate Rounds(areas: AreaList, open: seq<bool>, s: Flood, i: nat, num: nat) {
    && Closed(areas, open, s, s.Keys) && Together(areas, open, s)
    && (forall v :: v in s.Values ==> 1 <= v <= num)
    && (forall a :: a in s ==> 1 <= a < |areas|)
    && (forall a: nat :: 1 <= a < i ==> a in s)
  }

  lemma RoundStarts(areas: AreaList, open: seq<bool>, s: Flood, i: nat, num: nat)
    requires Rounds(areas, open, s, i, num)
    ensures OthersClosed(areas, open, s, num + 1) && num + 1 !in s.Values
  {
  }

  lemma RoundSkipped(areas: AreaList, open: seq<bool>, s: Flood, i: nat, num: nat)
    requires Rounds(areas, open, s, i, num) && i in s
    ensures Rounds(areas, open, s, i + 1, num)
  {
  }

  lemma RoundDone(areas: AreaList, open: seq<bool>, s: Flood, s': Flood, i: nat, num: nat)
    requires Symmetric(areas) && Rounds(areas, open, s, i, num) && 1 <= i < |areas|
    requires Grown(areas, open, s, s', i, num + 1) && Closed(areas, open, s', s'.Keys - s.Keys)
    requires forall a :: a in s' ==> 1 <= a < |areas|
    ensures Rounds(areas, open, s', i + 1, num + 1)
  {
    hide Closed, Together, Connected;
    RoundStarts(areas, open, s, i, num);
    RoundAdded(areas, open, s, s', i, num + 1);
  }

  lemma RoundsEnd(areas: AreaList, open: seq<bool>, s: Flood, num: nat)
    requires Rounds(areas, open, s, |areas|, num)
    ensures AllUsed(areas, s) && 0 !in s.Values
  {
  }

  // ---------------------------------------------------------------------------------------------
  // Bits

  function Mask(k: nat): bv8
    requires k < 8
  {
    if k == 0 then 1 else if k == 1 then 2 else if k == 2 then 4 else if k == 3 then 8
    else if k == 4 then 16 else if k == 5 then 32 else if k == 6 then 64 else 128
  }

  /** Bit `i` of a bit vector stored in bytes. */
  predicate BitAt(bytes: seq<bv8>, i: nat)
    requires i / 8 < |bytes|
  {
    bytes[i / 8] & Mask(i % 8) != 0
  }

  /** Bits are counted from the lowest of the first byte. */
  lemma BitAtIs(bytes: seq<bv8>, i: nat)
    requires i / 8 < |bytes|
    ensures BitAt(bytes, i) <==> (bytes[i / 8] >> (i % 8)) & 1 == 1
  {
    var k := i % 8;
    assert k == 0 || k == 1 || k == 2 || k == 3 || k == 4 || k == 5 || k == 6 || k == 7;
  }

  lemma SetBit(b: bv8, j: nat, k: nat)
    requires j < 8 && k < 8
    ensures (b | Mask(k)) & Mask(j) != 0 <==> j == k || b & Mask(j) != 0
  {
  }

  // ---------------------------------------------------------------------------------------------
  // The code

  datatype Change = Changed | TooLarge | BeforeArray

  datatype Answer = Yes | No | AreaTooLarge | AreaNegative | BehindArray

  lemma AllBits()
    ensures forall k: nat :: k < 8 ==> 255 & Mask(k) != 0
  {
  }

  lemma NoBits()
    ensures forall k: nat :: k < 8 ==> 0 & Mask(k) == 0
  {
  }

  lemma FilledBits(buffer: seq<bv8>, n: nat, value: bv8)
    requires n <= |buffer| && (value == 0 || value == 255)
    requires forall i :: 0 <= i < n ==> buffer[i] == value
    ensures forall j: nat :: j < 8 * n ==> (BitAt(buffer, j) <==> value == 255)
  {
    AllBits();
    NoBits();
  }

  /** The memset. */
  method Fill(buffer: array<bv8>, value: bv8, n: nat)
    requires n <= buffer.Length
    modifies buffer
    ensures forall i :: 0 <= i < n ==> buffer[i] == value
    ensures buffer[n..] == old(buffer[n..])
  {
    var i := 0;
    while i < n
      invariant 0 <= i <= n
      invariant forall j :: 0 <= j < i ==> buffer[j] == value
      invariant buffer[n..] == old(buffer[n..])
    {
      buffer[i] := value;
      i := i + 1;
    }
  }

  lemma SameBit(i: nat, j: nat)
    ensures j == i <==> j / 8 == i / 8 && j % 8 == i % 8
  {
  }

  lemma BitSet(bytes: seq<bv8>, i: nat, j: nat)
    requires i / 8 < |bytes| && j / 8 < |bytes|
    ensures BitAt(bytes[i / 8 := bytes[i / 8] | Mask(i % 8)], j) <==> j == i || BitAt(bytes, j)
  {
    hide Mask;
    SameBit(i, j);
    SetBit(bytes[i / 8], j % 8, i % 8);
  }

  method SetBitAt(buffer: array<bv8>, i: nat)
    requires i / 8 < buffer.Length
    modifies buffer
    ensures forall j: nat :: j < 8 * buffer.Length ==> (BitAt(buffer[..], j) <==> j == i || old(BitAt(buffer[..], j)))
    ensures forall k :: 0 <= k < buffer.Length && k != i / 8 ==> buffer[k] == old(buffer[k])
  {
    ghost var was := buffer[..];
    buffer[i / 8] := buffer[i / 8] | Mask(i % 8);
    assert buffer[..] == was[i / 8 := was[i / 8] | Mask(i % 8)];
    forall j: nat | j < 8 * buffer.Length
      ensures BitAt(buffer[..], j) <==> j == i || BitAt(was, j)
    {
      BitSet(was, i, j);
    }
  }

  /** The loop of CM_WriteAreaBits. */
  method WriteEqual(buffer: array<bv8>, floodnums: array<nat>, floodnum: nat, all: bool, n: nat, bytes: nat)
    requires buffer as object != floodnums && n <= floodnums.Length && n <= 8 * bytes && bytes <= buffer.Length
    requires forall j: nat :: j < 8 * bytes ==> !BitAt(buffer[..], j)
    modifies buffer
    ensures forall j: nat :: j < n ==> (BitAt(buffer[..], j) <==> all || floodnums[j] == floodnum)
    ensures forall j: nat :: n <= j < 8 * bytes ==> !BitAt(buffer[..], j)
    ensures buffer[bytes..] == old(buffer[bytes..])
  {
    hide BitAt;
    var i := 0;
    while i < n
      invariant 0 <= i <= n
      invariant forall j: nat :: j < i ==> (BitAt(buffer[..], j) <==> all || floodnums[j] == floodnum)
      invariant forall j: nat :: i <= j < 8 * bytes ==> !BitAt(buffer[..], j)
      invariant buffer[bytes..] == old(buffer[bytes..])
    {
      if floodnums[i] == floodnum || all {
        SetBitAt(buffer, i);
      }
      i := i + 1;
    }
  }

  /** The globals of the collision model that the area portal code works on. `floodnums` and
      `floodvalids` are the fields of `map_areas` that change. */
  class AreaMap {
    const list: seq<Area>
    const portals: seq<Portal>
    const floodnums: array<nat>
    const floodvalids: array<nat>
    const portalOpen: array<bool>
    var floodvalid: nat
    var noAreas: bool

    ghost predicate Loaded() {
      && GoodMap(list, portals)
      && floodnums.Length == MAX_MAP_AREAS && floodvalids.Length == MAX_MAP_AREAS
      && portalOpen.Length == MAX_MAP_AREAPORTALS && floodnums != floodvalids
    }

    ghost function Areas(): (r: AreaList)
      requires GoodMap(list, portals)
      ensures |r| == |list|
    {
      AreasOf(list, portals)
    }

    ghost predicate Valid()
      reads this, floodnums, floodvalids
    {
      && Loaded() && floodnums[0] == 0
      && forall a :: 0 <= a < |list| ==> floodvalids[a] <= floodvalid
    }

    /** The areas flooded in the current round. */
    ghost function Flooded(): Flood
      requires Loaded()
      reads this, floodnums, floodvalids
    {
      map a: nat | 1 <= a < |list| && floodvalids[a] == floodvalid :: floodnums[a]
    }

    /** The flood numbers are those of the current state of the portals. */
    ghost predicate Current()
      requires Loaded()
      reads this, floodnums, floodvalids, portalOpen
    {
      && AllUsed(Areas(), Flooded()) && 0 !in Flooded().Values
      && Closed(Areas(), portalOpen[..], Flooded(), Flooded().Keys)
      && Together(Areas(), portalOpen[..], Flooded())
    }

    method Mark(area: nat, num: nat)
      requires Valid() && 1 <= area < |list|
      modifies floodnums, floodvalids
      ensures Valid() && Flooded() == old(Flooded())[area := num]
      ensures floodnums[|list|..] == old(floodnums[|list|..])
    {
      floodnums[area] := num;
      floodvalids[area] := floodvalid;
    }

    lemma PortalAt(area: nat, i: nat)
      requires Loaded() && 1 <= area < |list| && i < list[area].count
      ensures |Areas()[area]| == list[area].count && list[area].first + i < |portals|
      ensures var p := portals[list[area].first + i];
        p == Areas()[area][i] && p.portal < portalOpen.Length && 1 <= p.other < |list|
    {
    }

    lemma PortalCount(area: nat)
      requires Loaded() && 1 <= area < |list|
      ensures |Areas()[area]| == list[area].count
    {
    }

    /** FloodArea_r. The "reflooded" error is unreachable. */
    method FloodAreaR(area: nat, num: nat)
      requires Valid() && Loaded() && 1 <= area < |list|
      requires area in Flooded() ==> Flooded()[area] == num
      requires OthersClosed(Areas(), portalOpen[..], Flooded(), num)
      modifies floodnums, floodvalids
      ensures Valid()
      ensures Grown(Areas(), portalOpen[..], old(Flooded()), Flooded(), area, num)
      ensures Closed(Areas(), portalOpen[..], Flooded(), Flooded().Keys - old(Flooded()).Keys)
      ensures floodnums[|list|..] == old(floodnums[|list|..])
      decreases Unflooded(|list|, Flooded()), 1
    {
      ghost var areas, open, s0 := Areas(), portalOpen[..], Flooded();
      if floodvalids[area] == floodvalid {
        assert area in Flooded();
        if floodnums[area] == num {
          return;
        }
        assert false;
      }
      Mark(area, num);
      FollowPortals(area, num, s0);
    }

    /** The loop of FloodArea_r over the portals of an area just marked. */
    method FollowPortals(area: nat, num: nat, ghost s0: Flood)
      requires Valid() && Loaded() && 1 <= area < |list|
      requires area !in s0 && Flooded() == s0[area := num]
      requires OthersClosed(Areas(), portalOpen[..], s0, num)
      modifies floodnums, floodvalids
      ensures Valid()
      ensures Grown(Areas(), portalOpen[..], s0, Flooded(), area, num)
      ensures Closed(Areas(), portalOpen[..], Flooded(), Flooded().Keys - s0.Keys)
      ensures floodnums[|list|..] == old(floodnums[|list|..])
      decreases Unflooded(|list|, s0), 0
    {
      assert GoodMap(list, portals) && Symmetric(Areas());
      hide *;
      ghost var areas, open := Areas(), portalOpen[..];
      PortalCount(area);
      LoopStarts(areas, open, s0, area, num);
      ghost var s := Flooded();
      var i := 0;
      while i < list[area].count
        invariant Valid() && s == Flooded() && portalOpen[..] == open
        invariant 0 <= i <= list[area].count && floodnums[|list|..] == old(floodnums[|list|..])
        invariant Looping(areas, open, s0, s, area, num, i)
      {
        PortalAt(area, i);
        var p := portals[list[area].first + i];
        if portalOpen[p.portal] {
          MayFlood(areas, open, s0, s, area, num, i);
          FewerUnflooded(areas, open, s0, s, area, num, i);
          FloodAreaR(p.other, num);
          PortalTaken(areas, open, s0, s, Flooded(), area, num, i);
          s := Flooded();
        } else {
          PortalClosed(areas, open, s0, s, area, num, i);
        }
        i := i + 1;
      }
      LoopEnds(areas, open, s0, s, area, num);
    }

    /** Starting a round invalidates all flood numbers. */
    method NewRound()
      requires Valid()
      modifies this`floodvalid
      ensures Valid() && Flooded() == map[]
    {
      floodvalid := floodvalid + 1;
    }

    lemma FloodedAreUsed(num: nat)
      requires Loaded()
      ensures forall a :: a in Flooded() ==> 1 <= a < |list|
      ensures Rounds(Areas(), portalOpen[..], map[], 1, 0)
    {
    }

    lemma AreasAre()
      requires Valid()
      ensures Loaded() && GoodMap(list, portals) && 1 <= |list| <= floodvalids.Length == floodnums.Length
      ensures Symmetric(Areas()) && |Areas()| == |list|
    {
    }

    lemma MarkedIs(area: nat)
      requires Valid() && 1 <= area < |list|
      ensures area < floodvalids.Length && (area in Flooded() <==> floodvalids[area] == floodvalid)
      ensures area in Flooded() ==> Flooded()[area] == floodnums[area]
    {
    }

    lemma GrownKeeps(areas: AreaList, open: seq<bool>, before: Flood, after: Flood, area: nat, num: nat)
      requires Grown(areas, open, before, after, area, num)
      ensures area in after && after[area] == num
      ensures 1 in before ==> 1 in after && after[1] == before[1]
    {
    }

    lemma NowCurrent(num: nat)
      requires Valid() && Rounds(Areas(), portalOpen[..], Flooded(), |list|, num)
      ensures Current()
      ensures 1 in Flooded() ==> Flooded()[1] == floodnums[1]
    {
      RoundsEnd(Areas(), portalOpen[..], Flooded(), num);
    }

    /** FloodAreaConnections. */
    method FloodAreaConnections()
      requires Valid() && Loaded()
      modifies this`floodvalid, floodnums, floodvalids
      ensures Valid() && Current() && floodnums[|list|..] == old(floodnums[|list|..])
      ensures |list| > 1 ==> floodnums[1] == 1
    {
      hide *;
      NewRound();
      AreasAre();
      ghost var areas, open, s := Areas(), portalOpen[..], Flooded();
      FloodedAreUsed(0);
      var num := 0;
      var i := 1;
      while i < |list|
        invariant 1 <= i <= |list| && num >= 0 && Valid() && s == Flooded()
        invariant portalOpen[..] == open && Rounds(areas, open, s, i, num)
        invariant floodnums[|list|..] == old(floodnums[|list|..])
        invariant if i == 1 then s == map[] && num == 0 else 1 in s && s[1] == 1
      {
        MarkedIs(i);
        if !(floodvalids[i] == floodvalid) {
          num := num + 1;
          RoundStarts(areas, open, s, i, num - 1);
          FloodAreaR(i, num);
          FloodedAreUsed(num);
          RoundDone(areas, open, s, Flooded(), i, num - 1);
          GrownKeeps(areas, open, s, Flooded(), i, num);
          s := Flooded();
        } else {
          RoundSkipped(areas, open, s, i, num);
        }
        i := i + 1;
      }
      NowCurrent(num);
    }

    /** Loading a map: all portals are closed and the areas are flooded. The areas are kept in a static
        array, in which the map loaded before has left the flood numbers `left`. */
    constructor (list: seq<Area>, portals: seq<Portal>, left: seq<nat>)
      requires GoodMap(list, portals) && |left| == MAX_MAP_AREAS
      ensures Valid() && Loaded() && Current() && !noAreas
      ensures this.list == list && this.portals == portals
      ensures fresh(floodnums) && fresh(floodvalids) && fresh(portalOpen)
      ensures forall p :: 0 <= p < portalOpen.Length ==> !portalOpen[p]
      ensures forall k :: 0 < k && |list| <= k < floodnums.Length ==> floodnums[k] == left[k]
      ensures |list| > 1 ==> floodnums[1] == 1
    {
      this.list, this.portals := list, portals;
      floodnums := new nat[MAX_MAP_AREAS](k requires 0 <= k < |left| => if k == 0 || k < |list| then 0 else left[k]);
      floodvalids := new nat[MAX_MAP_AREAS](_ => 0);
      portalOpen := new bool[MAX_MAP_AREAPORTALS](_ => false);
      floodvalid, noAreas := 0, false;
      new;
      FloodAreaConnections();
    }

    /** CM_SetAreaPortalState. The test lets a negative number pass, which then stands for a place in
        front of the array; what a write there does is not part of this model. */
    method SetAreaPortalState(portal: int, open: bool) returns (r: Change)
      requires Valid() && Loaded()
      modifies this`floodvalid, floodnums, floodvalids, portalOpen
      ensures Valid() && (r == TooLarge <==> portal > |portals|) && (r == BeforeArray <==> portal < 0)
      ensures r != Changed ==> portalOpen[..] == old(portalOpen[..]) && Flooded() == old(Flooded())
      ensures r == Changed ==> portal < portalOpen.Length && Current()
      ensures r == Changed ==> portalOpen[..] == old(portalOpen[..])[portal := open]
    {
      if portal > |portals| {
        return TooLarge;
      }
      if portal < 0 {
        return BeforeArray;
      }
      portalOpen[portal] := open;
      FloodAreaConnections();
      return Changed;
    }

    /** Equal flood numbers mean connected by open portals. */
    lemma NumbersMeanConnected(a: nat, b: nat)
      requires Valid() && Loaded() && Current() && 1 <= a < |list|
      requires b < |list|
      ensures floodnums[a] == floodnums[b] <==> b != 0 && Connected(Areas(), portalOpen[..], a, b)
    {
      assert a in Flooded() && Flooded()[a] in Flooded().Values;
      if b != 0 {
        assert b in Flooded();
        FloodMeaning(Areas(), portalOpen[..], Flooded(), a, b);
      }
    }

    /** CM_AreasConnected. An area equal to the number of areas slips through the check. The answer is
        then that of its unused entry or, when all entries are in use, what lies behind the array, which
        is not part of this model. */
    method AreasConnected(area1: int, area2: int) returns (r: Answer)
      requires Valid() && Loaded() && Current()
      ensures noAreas ==> r == Yes
      ensures !noAreas ==> (r == AreaTooLarge <==> area1 > |list| || area2 > |list|)
      ensures !noAreas ==> (r == AreaNegative <==> area1 <= |list| && area2 <= |list| && (area1 < 0 || area2 < 0))
      ensures !noAreas ==> (r == BehindArray <==>
        |list| == 256 && 0 <= area1 <= |list| && 0 <= area2 <= |list| && (area1 == |list| || area2 == |list|))
      ensures !noAreas && 0 < area1 < |list| && 0 < area2 < |list| ==>
        (r == Yes <==> Connected(Areas(), portalOpen[..], area1, area2))
      ensures !noAreas && 0 <= area1 < |list| && 0 <= area2 < |list| && (area1 == 0 || area2 == 0) ==>
        (r == Yes <==> area1 == area2)
      ensures !noAreas && 0 <= area1 <= |list| && 0 <= area2 <= |list| && r != BehindArray ==>
        area1 < floodnums.Length && area2 < floodnums.Length && (r == Yes <==> floodnums[area1] == floodnums[area2])
    {
      if noAreas {
        return Yes;
      }
      if area1 > |list| || area2 > |list| {
        return AreaTooLarge;
      }
      if area1 < 0 || area2 < 0 {
        return AreaNegative;
      }
      if area1 == MAX_MAP_AREAS || area2 == MAX_MAP_AREAS {
        return BehindArray;
      }
      if 0 < area1 < |list| && area2 < |list| {
        NumbersMeanConnected(area1, area2);
      } else if area1 == 0 && 0 < area2 < |list| {
        NumbersMeanConnected(area2, area1);
      }
      hide Current, Connected;
      if floodnums[area1] == floodnums[area2] {
        return Yes;
      }
      return No;
    }

    /** CM_WriteAreaBits: bit i tells whether area i is connected to `area`; area 0 sees all. */
    method WriteAreaBits(buffer: array<bv8>, area: nat) returns (bytes: nat)
      requires Valid() && Loaded() && Current() && area < |list| && |list| <= 8 * buffer.Length
      requires buffer as object !in {floodnums, floodvalids, portalOpen}
      modifies buffer
      ensures bytes == (|list| + 7) / 8 <= buffer.Length
      ensures forall i: nat :: i < |list| ==>
        (BitAt(buffer[..], i) <==> noAreas || area == 0 || (i != 0 && Connected(Areas(), portalOpen[..], area, i)))
      ensures forall i: nat :: |list| <= i < 8 * bytes ==> (BitAt(buffer[..], i) <==> noAreas)
      ensures buffer[bytes..] == old(buffer[bytes..])
    {
      bytes := (|list| + 7) / 8;
      ghost var areas, open := Areas(), portalOpen[..];
      forall j: nat | j < |list| && area != 0
        ensures floodnums[j] == floodnums[area] <==> j != 0 && Connected(areas, open, area, j)
      {
        NumbersMeanConnected(area, j);
      }
      hide *;
      if noAreas {
        Fill(buffer, 255, bytes);
        FilledBits(buffer[..], bytes, 255);
      } else {
        Fill(buffer, 0, bytes);
        FilledBits(buffer[..], bytes, 0);
        WriteEqual(buffer, floodnums, floodnums[area], area == 0, |list|, bytes);
      }
    }
  }

  lemma NoPortals(list: seq<Area>)
    requires 1 <= |list| <= MAX_MAP_AREAS && forall a <- list :: a == Area(0, 0)
    ensures GoodMap(list, [])
  {
    forall a: nat | a < |list|
      ensures AreasOf(list, [])[a] == []
    {
      assert list[a] in list;
      assert list[a] == Area(0, 0);
    }
  }

  /** A map of two areas has no area 2, yet the question whether that is connected with area 1 is
      answered, and the answer depends on the map loaded before. */
  method PhantomArea() returns (first: Answer, second: Answer)
    ensures first == Yes && second == No
  {
    var list := [Area(0, 0), Area(0, 0)];
    NoPortals(list);
    hide GoodMap, AreasOf, AreaMap.Valid, AreaMap.Current;
    var map1 := new AreaMap(list, [], seq(MAX_MAP_AREAS, _ => 1));
    first := map1.AreasConnected(1, 2);
    var map2 := new AreaMap(list, [], seq(MAX_MAP_AREAS, _ => 0));
    second := map2.AreasConnected(1, 2);
  }

  /** Two areas with one portal between them. */
  ghost predicate IsDoor(areas: AreaList) {
    |areas| == 3 && areas[1] == [Portal(0, 2)] && areas[2] == [Portal(0, 1)]
  }

  lemma DoorMap(list: seq<Area>, portals: seq<Portal>)
    requires list == [Area(0, 0), Area(0, 1), Area(1, 1)] && portals == [Portal(0, 2), Portal(0, 1)]
    ensures GoodMap(list, portals) && IsDoor(AreasOf(list, portals))
  {
    assert portals[0..1] == [Portal(0, 2)] && portals[1..2] == [Portal(0, 1)];
    assert AreasOf(list, portals)[1] == portals[0..1] && AreasOf(list, portals)[2] == portals[1..2];
  }

  lemma DoorEdge(areas: AreaList, open: seq<bool>, b: nat)
    requires IsDoor(areas) && open != []
    ensures Edge(areas, open, 1, b) <==> b == 2 && open[0]
  {
    assert areas[1][0] == Portal(0, 2);
  }

  lemma DoorConnects(areas: AreaList, open: seq<bool>)
    requires IsDoor(areas) && open != []
    ensures Connected(areas, open, 1, 2) <==> open[0]
  {
    hide IsDoor, Edge;
    if open[0] {
      DoorEdge(areas, open, 2);
      assert Step(areas, open, [1, 2], 0);
      assert Path(areas, open, [1, 2]);
    } else if path :| Path(areas, open, path) && path[0] == 1 && path[|path| - 1] == 2 {
      assert Step(areas, open, path, 0);
      DoorEdge(areas, open, path[1]);
    }
  }

  lemma DoorPortals(areas: AreaList, list: seq<Area>, portals: seq<Portal>)
    requires GoodMap(list, portals) && areas == AreasOf(list, portals) && IsDoor(areas)
    ensures |list| == 3
  {
  }

  method AskDoor(m: AreaMap) returns (r: Answer)
    requires m.Valid() && m.Loaded() && m.Current() && !m.noAreas && IsDoor(m.Areas())
    ensures r == if m.portalOpen[0] then Yes else No
  {
    DoorPortals(m.Areas(), m.list, m.portals);
    DoorConnects(m.Areas(), m.portalOpen[..]);
    hide GoodMap, AreasOf, Connected, IsDoor, AreaMap.Valid, AreaMap.Current;
    r := m.AreasConnected(1, 2);
  }

  /** A door connects the areas on its sides exactly while it is open; it is shut at first. */
  method OneDoor() returns (first: Answer, second: Answer, third: Answer)
    ensures first == No && second == Yes && third == No
  {
    var list, portals := [Area(0, 0), Area(0, 1), Area(1, 1)], [Portal(0, 2), Portal(0, 1)];
    DoorMap(list, portals);
    hide GoodMap, AreasOf, IsDoor, AreaMap.Valid, AreaMap.Current;
    var m := new AreaMap(list, portals, seq(MAX_MAP_AREAS, _ => 0));
    first := AskDoor(m);
    var r := m.SetAreaPortalState(0, true);
    assert m.portalOpen[..][0];
    second := AskDoor(m);
    r := m.SetAreaPortalState(0, false);
    assert !m.portalOpen[..][0];
    third := AskDoor(m);
  }
}
