/** The binary search tree of geoip/maxminddb.c: node records in three layouts, the walk along the
    bits of an address, and the cached start node for IPv4 addresses in an IPv6 tree. */
module SearchTree {
  import opened Bytes

  const MMDB_DATA_SECTION_SEPARATOR := 16

  /** What MMDB_open sets up: the file, where its data section starts and how long that is, and the
      metadata that the walk needs. */
  datatype Db = Db(content: seq<byte>, dataStart: nat, dataSize: nat, nodeCount: nat, recordLength: nat, v6: bool)

  ghost predicate Opened(db: Db) {
    && db.recordLength in {6, 7, 8} && 0 < db.nodeCount < TWO_32 && db.dataSize < TWO_32
    && db.dataStart <= |db.content|
  }

  function Depth(db: Db): nat {
    if db.v6 then 128 else 32
  }

  // ---------------------------------------------------------------------------------------------
  // Records

  function Uint24(s: seq<byte>, at: nat): (r: nat)
    requires at + 3 <= |s|
    ensures r < 0x100_0000
  {
    s[at] as nat * 65536 + s[at + 1] as nat * 256 + s[at + 2] as nat
  }

  function Uint32(s: seq<byte>, at: nat): (r: nat)
    requires at + 4 <= |s|
    ensures r < TWO_32
  {
    s[at] as nat * 16777216 + s[at + 1] as nat * 65536 + s[at + 2] as nat * 256 + s[at + 3] as nat
  }

  /** get_left_28_bit_record: the high nibble of the shared byte goes on top. */
  function Left28(s: seq<byte>, at: nat): (r: nat)
    requires at + 4 <= |s|
    ensures r < TWO_32
  {
    s[at] as nat * 65536 + s[at + 1] as nat * 256 + s[at + 2] as nat + (s[at + 3] as nat / 16) * 16777216
  }

  /** get_right_28_bit_record. */
  function Right28(s: seq<byte>, at: nat): (r: nat)
    requires at + 4 <= |s|
    ensures r < TWO_32
  {
    Uint32(s, at) % 0x1000_0000
  }

  /** The records of a node that lies at `at`, as record_info_for_database sets the getters up. */
  function RecordAt(s: seq<byte>, at: nat, length: nat, right: bool): (r: nat)
    requires length in {6, 7, 8} && at + length <= |s|
    ensures r < TWO_32
  {
    if length == 6 then Uint24(s, if right then at + 3 else at)
    else if length == 7 then if right then Right28(s, at + 3) else Left28(s, at)
    else Uint32(s, if right then at + 4 else at)
  }

  function BigEndian24(v: nat): (r: seq<byte>)
    ensures |r| == 3
  {
    [(v / 65536 % 256) as byte, (v / 256 % 256) as byte, (v % 256) as byte]
  }

  /** The node layouts of section "Node Layout" of the MaxMind DB File Format Specification 2.0. */
  function NodeBytes(left: nat, right: nat, length: nat): seq<byte>
    requires left < TWO_32 && right < TWO_32
  {
    if length == 6 then BigEndian24(left) + BigEndian24(right)
    else if length == 7 then
      BigEndian24(left) + [(left / 16777216 % 16 * 16 + right / 16777216 % 16) as byte] + BigEndian24(right)
    else [(left / 16777216) as byte] + BigEndian24(left) + [(right / 16777216) as byte] + BigEndian24(right)
  }

  lemma Digits(v: nat)
    ensures v / 65536 % 256 * 65536 + v / 256 % 256 * 256 + v % 256 == v % 16777216
  {
    var q := v / 256;
    assert v / 65536 == q / 256;
    assert v / 16777216 == q / 65536;
    assert v == 256 * q + v % 256 && q == 256 * (q / 256) + q % 256;
    assert q / 256 == 256 * (q / 65536) + q / 256 % 256;
    assert v == 16777216 * (v / 16777216) + v % 16777216;
  }

  lemma ReadBack24(s: seq<byte>, at: nat, v: nat)
    requires at + 3 <= |s| && s[at..at + 3] == BigEndian24(v)
    ensures Uint24(s, at) == v % 16777216
  {
    var n := s[at..at + 3];
    assert s[at] == n[0] && s[at + 1] == n[1] && s[at + 2] == n[2];
    Digits(v);
  }

  lemma BigEndianNumber(v: nat)
    ensures Number(BigEndian24(v)) == v % 16777216
  {
    Digits(v);
    NumberOfThree((v / 65536 % 256) as byte, (v / 256 % 256) as byte, (v % 256) as byte);
    hide Number;
  }

  lemma Slices(s: seq<byte>, at: nat, a: seq<byte>, b: seq<byte>, c: seq<byte>)
    requires var n := |a| + |b| + |c|; at + n <= |s| && s[at..at + n] == a + b + c
    ensures s[at..at + |a|] == a && s[at + |a|..at + |a| + |b|] == b
    ensures s[at + |a| + |b|..at + |a| + |b| + |c|] == c
    ensures |a| == 1 ==> s[at] == a[0]
    ensures |b| == 1 ==> s[at + |a|] == b[0]
  {
    var n := s[at..at + |a| + |b| + |c|];
    assert forall i :: 0 <= i < |a| ==> s[at + i] == n[i] == a[i];
    assert forall i :: 0 <= i < |b| ==> s[at + |a| + i] == n[|a| + i] == b[i];
    assert forall i :: 0 <= i < |c| ==> s[at + |a| + |b| + i] == n[|a| + |b| + i] == c[i];
  }

  lemma MiddleByte(s: seq<byte>, at: nat)
    requires at + 7 <= |s|
    ensures Left28(s, at) == Number([s[at + 3] / 16, s[at], s[at + 1], s[at + 2]])
    ensures Right28(s, at + 3) == Number([s[at + 3] % 16, s[at + 4], s[at + 5], s[at + 6]])
  {
    NumberOfFour(s[at + 3] / 16, s[at], s[at + 1], s[at + 2]);
    NumberOfFour(s[at + 3] % 16, s[at + 4], s[at + 5], s[at + 6]);
    hide Number;
    assert s[at + 3] as nat == s[at + 3] as nat / 16 * 16 + s[at + 3] as nat % 16;
  }

  lemma Words32(s: seq<byte>, at: nat)
    requires at + 4 <= |s|
    ensures Uint32(s, at) == Number([s[at], s[at + 1], s[at + 2], s[at + 3]])
  {
    NumberOfFour(s[at], s[at + 1], s[at + 2], s[at + 3]);
  }

  /** The records of a node are numbers of three bytes; of three bytes and, in front of them, the high or
      the low half of the middle byte; or of four bytes. The left record comes first. */
  lemma RecordIs(s: seq<byte>, at: nat, length: nat)
    requires length in {6, 7, 8} && at + length <= |s|
    ensures length == 6 ==>
      && RecordAt(s, at, 6, false) == Number([s[at], s[at + 1], s[at + 2]])
      && RecordAt(s, at, 6, true) == Number([s[at + 3], s[at + 4], s[at + 5]])
    ensures length == 7 ==>
      && RecordAt(s, at, 7, false) == Number([s[at + 3] / 16, s[at], s[at + 1], s[at + 2]])
      && RecordAt(s, at, 7, true) == Number([s[at + 3] % 16, s[at + 4], s[at + 5], s[at + 6]])
    ensures length == 8 ==>
      && RecordAt(s, at, 8, false) == Number([s[at], s[at + 1], s[at + 2], s[at + 3]])
      && RecordAt(s, at, 8, true) == Number([s[at + 4], s[at + 5], s[at + 6], s[at + 7]])
  {
    hide Number, Left28, Right28, Uint32;
    if length == 6 {
      NumberOfThree(s[at], s[at + 1], s[at + 2]);
      NumberOfThree(s[at + 3], s[at + 4], s[at + 5]);
    } else if length == 7 {
      MiddleByte(s, at);
    } else {
      Words32(s, at);
      Words32(s, at + 4);
    }
  }

  lemma RoundTrip24(s: seq<byte>, at: nat, left: nat, right: nat)
    requires at + 6 <= |s| && left < 0x100_0000 && right < 0x100_0000
    requires s[at..at + 6] == BigEndian24(left) + BigEndian24(right)
    ensures Uint24(s, at) == left && Uint24(s, at + 3) == right
  {
    hide BigEndian24, Uint24;
    var a, b := BigEndian24(left), BigEndian24(right);
    assert a + b == a + [] + b;
    Slices(s, at, a, [], b);
    ReadBack24(s, at, left);
    ReadBack24(s, at + 3, right);
  }

  lemma SharedByte(s: seq<byte>, at: nat, left: nat, right: nat)
    requires at + 7 <= |s| && left < 0x1000_0000 && right < 0x1000_0000
    requires s[at + 3] == (left / 16777216 % 16 * 16 + right / 16777216 % 16) as byte
    requires Uint24(s, at) == left % 16777216 && Uint24(s, at + 4) == right % 16777216
    ensures Left28(s, at) == left && Right28(s, at + 3) == right
  {
    var hl, hr := left / 16777216, right / 16777216;
    assert hl < 16 && hr < 16;
    var b := s[at + 3] as nat;
    assert b == hl * 16 + hr;
    assert b / 16 == hl;
    assert Uint32(s, at + 3) == b * 16777216 + right % 16777216;
    assert Uint32(s, at + 3) == hl * 0x1000_0000 + right;
  }

  lemma RoundTrip28(s: seq<byte>, at: nat, left: nat, right: nat)
    requires at + 7 <= |s| && left < 0x1000_0000 && right < 0x1000_0000
    requires s[at..at + 7] ==
      BigEndian24(left) + [(left / 16777216 % 16 * 16 + right / 16777216 % 16) as byte] + BigEndian24(right)
    ensures Left28(s, at) == left && Right28(s, at + 3) == right
  {
    hide BigEndian24, Uint24, Left28, Right28;
    var shared := [(left / 16777216 % 16 * 16 + right / 16777216 % 16) as byte];
    Slices(s, at, BigEndian24(left), shared, BigEndian24(right));
    ReadBack24(s, at, left);
    ReadBack24(s, at + 4, right);
    SharedByte(s, at, left, right);
  }

  lemma TopByte(s: seq<byte>, at: nat, v: nat)
    requires at + 4 <= |s| && v < TWO_32 && s[at] == (v / 16777216) as byte
    requires Uint24(s, at + 1) == v % 16777216
    ensures Uint32(s, at) == v
  {
  }

  lemma RoundTrip32(s: seq<byte>, at: nat, left: nat, right: nat)
    requires at + 8 <= |s| && left < TWO_32 && right < TWO_32
    requires s[at..at + 8] ==
      [(left / 16777216) as byte] + BigEndian24(left) + [(right / 16777216) as byte] + BigEndian24(right)
    ensures Uint32(s, at) == left && Uint32(s, at + 4) == right
  {
    hide BigEndian24, Uint24, Uint32;
    var a, b := BigEndian24(left), BigEndian24(right);
    var top, next := [(left / 16777216) as byte], [(right / 16777216) as byte];
    assert top + a + next + b == top + a + (next + b);
    Slices(s, at, top, a, next + b);
    assert next + b == next + b + [];
    Slices(s, at + 4, next, b, []);
    ReadBack24(s, at + 1, left);
    ReadBack24(s, at + 5, right);
    TopByte(s, at, left);
    TopByte(s, at + 4, right);
  }

  /** In every layout, reading a node gives back the two records written into it. */
  lemma RecordRoundTrip(s: seq<byte>, at: nat, length: nat, left: nat, right: nat)
    requires length in {6, 7, 8} && at + length <= |s|
    requires var limit := if length == 6 then 0x100_0000 else if length == 7 then 0x1000_0000 else TWO_32;
      left < limit && right < limit
    requires s[at..at + length] == NodeBytes(left, right, length)
    ensures RecordAt(s, at, length, false) == left && RecordAt(s, at, length, true) == right
  {
    hide BigEndian24, Uint24, Uint32, Left28, Right28;
    if length == 6 {
      RoundTrip24(s, at, left, right);
    } else if length == 7 {
      RoundTrip28(s, at, left, right);
    } else {
      RoundTrip32(s, at, left, right);
    }
  }

  // ---------------------------------------------------------------------------------------------
  // The walk

  datatype Kind = SearchNode | Empty | Data | Invalid

  function RecordType(db: Db, record: nat): Kind {
    if record == 0 then Invalid
    else if record < db.nodeCount then SearchNode
    else if record == db.nodeCount then Empty
    else if record - db.nodeCount < db.dataSize then Data
    else Invalid
  }

  /** data_section_offset_for_record, in 32-bit arithmetic. */
  function DataOffset(db: Db, record: nat): nat {
    (record - db.nodeCount - MMDB_DATA_SECTION_SEPARATOR) % TWO_32
  }

  datatype Option<T> = None | Some(value: T)

  /** Where a run of left records ends, or Broken if it leaves the file. */
  datatype Run = Broken | Run(node: nat, netmask: nat)

  datatype Outcome = Corrupt | Done(found: bool, offset: nat, netmask: int)

  /** A node's record; None if the node would reach into the data section. */
  function Record(db: Db, node: nat, right: bool): Option<nat>
    requires Opened(db)
  {
    var at := node * db.recordLength % TWO_32;
    if at + db.recordLength > db.dataStart then None else Some(RecordAt(db.content, at, db.recordLength, right))
  }

  /** Which nodes can be read: those that lie before the data section, at an offset of 32 bits. If the tree
      ends before it and is smaller than 2^32 bytes, these are all nodes of the tree. */
  lemma RecordReadable(db: Db, node: nat, right: bool)
    requires Opened(db)
    ensures var at := node * db.recordLength % 0x1_0000_0000;
      Record(db, node, right) ==
        if at + db.recordLength <= db.dataStart then Some(RecordAt(db.content, at, db.recordLength, right)) else None
    ensures node < db.nodeCount && db.nodeCount * db.recordLength <= db.dataStart
            && db.nodeCount * db.recordLength <= 0x1_0000_0000 ==>
      Record(db, node, right) == Some(RecordAt(db.content, node * db.recordLength, db.recordLength, right))
  {
    hide RecordAt;
    if node < db.nodeCount {
      assert (node + 1) * db.recordLength <= db.nodeCount * db.recordLength;
    }
  }

  /** The result for a record that ends the walk, with `bit` bits of the address left. */
  function Populated(db: Db, record: nat, bit: int): Outcome {
    Done(RecordType(db, record) == Data, DataOffset(db, record), Depth(db) - bit)
  }

  function Walk(db: Db, node: nat, bits: seq<bool>): Outcome
    requires Opened(db)
    decreases |bits|
  {
    if bits == [] then Corrupt
    else
      match Record(db, node, bits[0])
      case None => Corrupt
      case Some(r) =>
        match RecordType(db, r)
        case Invalid => Corrupt
        case SearchNode => Walk(db, r, bits[1..])
        case _ => Populated(db, r, |bits| - 1)
  }

  /** Left records from the root until one leaves the tree or 96 have been taken; with the count. */
  function LeftRun(db: Db, node: nat, netmask: nat): (run: Run)
    requires Opened(db) && netmask <= 96
    ensures run.Run? ==> netmask <= run.netmask <= 96
    decreases 96 - netmask
  {
    if netmask == 96 then Run(node, 96)
    else
      match Record(db, node, false)
      case None => Broken
      case Some(r) => if r >= db.nodeCount then Run(r, netmask) else LeftRun(db, r, netmask + 1)
  }

  function Power(k: nat): nat
    requires k < 8
  {
    if k == 0 then 1 else if k == 1 then 2 else if k == 2 then 4 else if k == 3 then 8
    else if k == 4 then 16 else if k == 5 then 32 else if k == 6 then 64 else 128
  }

  /** Bit `k` of an address, most significant first. */
  predicate AddressBit(address: seq<byte>, k: nat)
    requires k / 8 < |address|
  {
    address[k / 8] as nat / Power(7 - k % 8) % 2 == 1
  }

  function AddressBits(address: seq<byte>): (r: seq<bool>)
    ensures |r| == 8 * |address|
  {
    seq(8 * |address|, k requires 0 <= k < 8 * |address| => AddressBit(address, k))
  }

  lemma FourDigits(v: nat)
    requires v < 16
    ensures v == v / 8 % 2 * 8 + v / 4 % 2 * 4 + v / 2 % 2 * 2 + v % 2
  {
  }

  lemma HighNibble(v: nat, high: nat, low: nat)
    requires low < 16 && v == 16 * high + low
    ensures v / 128 == high / 8 && v / 64 == high / 4 && v / 32 == high / 2 && v / 16 == high
  {
    assert v == 128 * (high / 8) + (16 * (high % 8) + low);
    assert v == 64 * (high / 4) + (16 * (high % 4) + low);
    assert v == 32 * (high / 2) + (16 * (high % 2) + low);
  }

  lemma LastDigit(x: nat, y: nat)
    ensures (2 * x + y) % 2 == y % 2
  {
  }

  lemma LowNibble(v: nat, high: nat, low: nat)
    requires low < 16 && v == 16 * high + low
    ensures v / 8 % 2 == low / 8 % 2 && v / 4 % 2 == low / 4 % 2 && v / 2 % 2 == low / 2 % 2 && v % 2 == low % 2
  {
    assert v / 2 == 2 * (4 * high) + low / 2;
    assert v / 4 == 2 * (2 * high) + low / 4;
    assert v / 8 == 2 * high + low / 8;
    LastDigit(4 * high, low / 2);
    LastDigit(2 * high, low / 4);
    LastDigit(high, low / 8);
    LastDigit(8 * high, low);
  }

  lemma Nibble(v: nat, high: nat, low: nat)
    requires low < 16 && v == 16 * high + low
    ensures v / 128 == high / 8 && v / 64 == high / 4 && v / 32 == high / 2 && v / 16 == high
    ensures v / 8 % 2 == low / 8 % 2 && v / 4 % 2 == low / 4 % 2 && v / 2 % 2 == low / 2 % 2 && v % 2 == low % 2
  {
    HighNibble(v, high, low);
    LowNibble(v, high, low);
  }

  lemma BinaryDigits(v: nat)
    requires v < 256
    ensures v == v / 128 % 2 * 128 + v / 64 % 2 * 64 + v / 32 % 2 * 32 + v / 16 % 2 * 16
               + v / 8 % 2 * 8 + v / 4 % 2 * 4 + v / 2 % 2 * 2 + v % 2
  {
    var high, low := v / 16, v % 16;
    FourDigits(high);
    FourDigits(low);
    Nibble(v, high, low);
  }

  lemma Powers()
    ensures Power(0) == 1 && Power(1) == 2 && Power(2) == 4 && Power(3) == 8
    ensures Power(4) == 16 && Power(5) == 32 && Power(6) == 64 && Power(7) == 128
  {
  }

  function Digit(v: nat, weight: nat): nat
    requires weight > 0
  {
    v / weight % 2 * weight
  }

  lemma DigitSum(v: nat)
    requires v < 256
    ensures v == Digit(v, 128) + Digit(v, 64) + Digit(v, 32) + Digit(v, 16)
               + Digit(v, 8) + Digit(v, 4) + Digit(v, 2) + Digit(v, 1)
  {
    BinaryDigits(v);
  }

  lemma BitIs(address: seq<byte>, i: nat, k: nat, weight: nat)
    requires i < |address| && k < 8 && weight == Power(7 - k) > 0
    ensures (if AddressBits(address)[8 * i..8 * i + 8][k] then weight else 0) == Digit(address[i] as nat, weight)
  {
    assert (8 * i + k) / 8 == i && (8 * i + k) % 8 == k;
    hide Power;
  }

  /** The eight bits of a byte are its binary digits, most significant first. */
  lemma BitsMakeByte(address: seq<byte>, i: nat)
    requires i < |address|
    ensures var bits := AddressBits(address)[8 * i..8 * i + 8];
      address[i] as nat
         == (if bits[0] then 128 else 0) + (if bits[1] then 64 else 0)
          + (if bits[2] then 32 else 0) + (if bits[3] then 16 else 0)
          + (if bits[4] then 8 else 0) + (if bits[5] then 4 else 0)
          + (if bits[6] then 2 else 0) + (if bits[7] then 1 else 0)
  {
    Powers();
    hide *;
    DigitSum(address[i] as nat);
    BitIs(address, i, 0, 128);
    BitIs(address, i, 1, 64);
    BitIs(address, i, 2, 32);
    BitIs(address, i, 3, 16);
    BitIs(address, i, 4, 8);
    BitIs(address, i, 5, 4);
    BitIs(address, i, 6, 2);
    BitIs(address, i, 7, 1);
  }

  function Mapped(address: seq<byte>): seq<byte> {
    [0, 0, 0, 0, 0, 0, 0, 0, 0, 0, 0, 0] + address
  }

  /** find_address_in_search_tree without the cache. */
  function Find(db: Db, address: seq<byte>, ipv4: bool): Outcome
    requires Opened(db)
  {
    if db.v6 && ipv4 then
      match LeftRun(db, 0, 0)
      case Broken => Corrupt
      case Run(start, netmask) =>
        match RecordType(db, start)
        case Invalid => Corrupt
        case SearchNode =>
          if netmask <= 8 * |address| then Walk(db, start, AddressBits(address)[netmask..]) else Corrupt
        case _ => Populated(db, start, netmask)
    else Walk(db, 0, AddressBits(address))
  }

  // ---------------------------------------------------------------------------------------------
  // What a walk finds

  /** A record that names a network: the number of nodes, for one without data, or a number above it that
      leads into the data section. */
  predicate IsNetwork(db: Db, record: nat) {
    record == db.nodeCount || (record > db.nodeCount && record - db.nodeCount < db.dataSize)
  }

  /** The record reached from `node` along `bits`, if all records on the way are search nodes. */
  function Follow(db: Db, node: nat, bits: seq<bool>): Option<nat>
    requires Opened(db) && bits != []
    decreases |bits|
  {
    match Record(db, node, bits[0])
    case None => None
    case Some(r) =>
      if |bits| == 1 then Some(r)
      else if 0 < r < db.nodeCount then Follow(db, r, bits[1..])
      else None
  }

  /** The prefix of length `k` of the address is a network of the tree: the walk along it ends at a
      record that is no search node. */
  ghost predicate NetworkAt(db: Db, node: nat, bits: seq<bool>, k: nat)
    requires Opened(db)
  {
    && 1 <= k <= |bits| && Follow(db, node, bits[..k]).Some?
    && IsNetwork(db, Follow(db, node, bits[..k]).value)
  }

  /** An address lies in one network at most. */
  lemma {:induction false} NetworkUnique(db: Db, node: nat, bits: seq<bool>, j: nat, k: nat)
    requires Opened(db) && NetworkAt(db, node, bits, j) && NetworkAt(db, node, bits, k)
    ensures j == k
    decreases |bits|
  {
    var r := Record(db, node, bits[0]).value;
    if j > 1 && k > 1 {
      assert bits[..j][1..] == bits[1..][..j - 1] && bits[..k][1..] == bits[1..][..k - 1];
      NetworkUnique(db, r, bits[1..], j - 1, k - 1);
    }
  }

  /** One search node further down, the networks are those with one bit more. */
  lemma NetworkBelow(db: Db, node: nat, bits: seq<bool>, k: nat)
    requires Opened(db) && 1 < k <= |bits| && Record(db, node, bits[0]).Some?
    requires 0 < Record(db, node, bits[0]).value < db.nodeCount
    ensures var r := Record(db, node, bits[0]).value;
      && (NetworkAt(db, node, bits, k) <==> NetworkAt(db, r, bits[1..], k - 1))
      && Follow(db, node, bits[..k]) == Follow(db, r, bits[1..][..k - 1])
  {
    assert bits[..k][1..] == bits[1..][..k - 1];
  }

  /** The walk succeeds exactly if the address lies in a network of the tree, and then its netmask is
      that network's prefix length; it is found unless the record there is the number of nodes, and the
      offset is how far the record is behind that number and the separator. */
  lemma {:induction false} WalkMeaning(db: Db, node: nat, bits: seq<bool>, k: nat)
    requires Opened(db) && 1 <= k <= |bits|
    ensures NetworkAt(db, node, bits, k) ==>
      var r := Follow(db, node, bits[..k]).value;
      Walk(db, node, bits) == Done(r != db.nodeCount, (r - db.nodeCount - 16) % TWO_32, Depth(db) - (|bits| - k))
    decreases |bits|
  {
    if Record(db, node, bits[0]).Some? {
      var r := Record(db, node, bits[0]).value;
      if k > 1 && RecordType(db, r) == SearchNode {
        NetworkBelow(db, node, bits, k);
        WalkMeaning(db, r, bits[1..], k - 1);
      }
    }
  }

  lemma {:induction false} WalkFindsNetwork(db: Db, node: nat, bits: seq<bool>) returns (k: nat)
    requires Opened(db) && Walk(db, node, bits).Done?
    ensures NetworkAt(db, node, bits, k)
    decreases |bits|
  {
    var r := Record(db, node, bits[0]).value;
    if RecordType(db, r) == SearchNode {
      var j := WalkFindsNetwork(db, r, bits[1..]);
      k := j + 1;
      NetworkBelow(db, node, bits, k);
    } else {
      k := 1;
    }
  }

  // ---------------------------------------------------------------------------------------------
  // The IPv4 start node

  /** No record on the run of left records is zero. */
  predicate NoZeroRun(db: Db, node: nat, netmask: nat)
    requires Opened(db) && netmask <= 96
    decreases 96 - netmask
  {
    netmask == 96 ||
    match Record(db, node, false)
    case None => true
    case Some(r) => r >= db.nodeCount || (r != 0 && NoZeroRun(db, r, netmask + 1))
  }

  function Zeros(n: nat): (r: seq<bool>)
    ensures |r| == n
  {
    seq(n, _ => false)
  }

  /** Walking along zero bits follows the run of left records. */
  lemma {:induction false} RunWalks(db: Db, node: nat, netmask: nat, rest: seq<bool>)
    requires Opened(db) && netmask <= 96 && node < db.nodeCount && NoZeroRun(db, node, netmask)
    ensures var run, walk := LeftRun(db, node, netmask), Walk(db, node, Zeros(96 - netmask) + rest);
      match run
      case Broken => walk == Corrupt
      case Run(start, mask) =>
        && netmask <= mask <= 96 && (mask < 96 <==> start >= db.nodeCount) && (netmask < 96 ==> start != 0)
        && (mask == 96 ==> walk == Walk(db, start, rest))
        && (mask < 96 ==> walk == if RecordType(db, start) == Invalid then Corrupt
                                  else Populated(db, start, 95 - mask + |rest|))
    decreases 96 - netmask
  {
    var bits := Zeros(96 - netmask) + rest;
    if netmask == 96 {
      assert bits == rest;
    } else {
      assert !bits[0] && bits[1..] == Zeros(96 - (netmask + 1)) + rest;
      match Record(db, node, false)
      case None =>
      case Some(r) =>
        if r < db.nodeCount {
          RunWalks(db, r, netmask + 1, rest);
        }
    }
  }

  lemma ZeroBit(address: seq<byte>, k: nat)
    requires k / 8 < |address| && address[k / 8] == 0
    ensures !AddressBit(address, k)
  {
  }

  lemma MappedBit(address: seq<byte>, k: nat)
    requires |address| == 4 && k < 128
    ensures AddressBit(Mapped(address), k) == if k < 96 then false else AddressBit(address, k - 96)
  {
    if k < 96 {
      ZeroBit(Mapped(address), k);
    } else {
      assert k / 8 == (k - 96) / 8 + 12 && k % 8 == (k - 96) % 8;
    }
  }

  lemma MappedBits(address: seq<byte>)
    requires |address| == 4
    ensures AddressBits(Mapped(address)) == Zeros(96) + AddressBits(address)
    ensures AddressBits(Mapped(address))[96..] == AddressBits(address)
  {
    var m := Mapped(address);
    forall k: nat | k < 128
      ensures AddressBits(m)[k] == (Zeros(96) + AddressBits(address))[k]
    {
      MappedBit(address, k);
      hide AddressBit, Mapped;
    }
    hide AddressBits, Mapped, Zeros;
  }

  lemma HasRoot(db: Db)
    requires Opened(db)
    ensures 0 < db.nodeCount
  {
  }

  lemma LongWalk(db: Db, address: seq<byte>)
    requires Opened(db) && db.v6 && |address| == 4 && NoZeroRun(db, 0, 0)
    ensures var run := LeftRun(db, 0, 0);
      && (run.Run? ==> run.node != 0 && (run.netmask < 96 <==> run.node >= db.nodeCount))
      && Walk(db, 0, AddressBits(Mapped(address))) ==
        if run.Broken? then Corrupt
        else if run.netmask == 96 then Walk(db, run.node, AddressBits(address))
        else if RecordType(db, run.node) == Invalid then Corrupt
        else Populated(db, run.node, 127 - run.netmask)
  {
    hide *;
    HasRoot(db);
    MappedBits(address);
    RunWalks(db, 0, 0, AddressBits(address));
  }

  lemma FindMapped(db: Db, address: seq<byte>)
    requires Opened(db) && db.v6 && |address| == 4
    ensures var run := LeftRun(db, 0, 0);
      Find(db, Mapped(address), true) ==
        if run.Broken? || RecordType(db, run.node) == Invalid then Corrupt
        else if RecordType(db, run.node) != SearchNode then Populated(db, run.node, run.netmask)
        else if run.netmask <= 128 then Walk(db, run.node, AddressBits(Mapped(address))[run.netmask..])
        else Corrupt
  {
  }

  lemma StartKinds(db: Db, start: nat)
    ensures start >= db.nodeCount ==> RecordType(db, start) != SearchNode
    ensures 0 < start < db.nodeCount ==> RecordType(db, start) == SearchNode
  {
  }

  lemma PopulatedParts(db: Db, record: nat, bit: int)
    requires db.v6
    ensures Populated(db, record, bit) == Done(RecordType(db, record) == Data, DataOffset(db, record), 128 - bit)
  {
  }

  /** A run that stops early has left the tree. */
  lemma {:induction false} RunEnds(db: Db, node: nat, netmask: nat)
    requires Opened(db) && netmask <= 96
    ensures var run := LeftRun(db, node, netmask);
      run.Run? && run.netmask < 96 ==> run.node >= db.nodeCount
    decreases 96 - netmask
  {
    if netmask < 96 && Record(db, node, false).Some? && Record(db, node, false).value < db.nodeCount {
      RunEnds(db, Record(db, node, false).value, netmask + 1);
    }
  }

  /** The lookup of an IPv4 address in an IPv6 tree, by the record that ends the run of left records: a
      search node is walked on from with the 32 bits of the address; a record that names a network is the
      result for every address, with the rest of the 128 bits as its netmask; others are errors. */
  lemma ShortLookupIs(db: Db, address: seq<byte>)
    requires Opened(db) && db.v6 && |address| == 4
    ensures var run := LeftRun(db, 0, 0);
      Find(db, Mapped(address), true) ==
        if run.Broken? || run.node == 0 then Corrupt
        else if run.node < db.nodeCount then Walk(db, run.node, AddressBits(address))
        else if run.node - db.nodeCount >= db.dataSize && run.node != db.nodeCount then Corrupt
        else Done(run.node != db.nodeCount, (run.node - db.nodeCount - 16) % TWO_32, 128 - run.netmask)
  {
    FindMapped(db, address);
    MappedBits(address);
    RunEnds(db, 0, 0);
    hide AddressBits, Mapped, Find, LeftRun, Walk;
  }

  /** Looking up an IPv4 address from the start node gives the result of walking the whole 128-bit
      address with 96 leading zero bits, as long as no record on that run of left records is zero;
      the netmask agrees exactly when the start node is a search node. */
  lemma StartNodeAgrees(db: Db, address: seq<byte>)
    requires Opened(db) && db.v6 && |address| == 4 && NoZeroRun(db, 0, 0)
    ensures var fast, slow := Find(db, Mapped(address), true), Walk(db, 0, AddressBits(Mapped(address)));
      && (fast == Corrupt <==> slow == Corrupt)
      && (slow.Done? ==> fast.found == slow.found && fast.offset == slow.offset)
      && (slow.Done? ==> (fast.netmask == slow.netmask <==>
            LeftRun(db, 0, 0).Run? && 0 < LeftRun(db, 0, 0).node < db.nodeCount))
  {
    LongWalk(db, address);
    FindMapped(db, address);
    MappedBits(address);
    hide *;
    if LeftRun(db, 0, 0).Run? {
      var start, mask := LeftRun(db, 0, 0).node, LeftRun(db, 0, 0).netmask;
      PopulatedParts(db, start, mask);
      PopulatedParts(db, start, 127 - mask);
      StartKinds(db, start);
    }
  }

  /** A zero record on the run makes the whole walk fail. */
  lemma {:induction false} ZeroOnRunFails(db: Db, node: nat, netmask: nat, rest: seq<bool>)
    requires Opened(db) && netmask <= 96 && !NoZeroRun(db, node, netmask)
    ensures Walk(db, node, Zeros(96 - netmask) + rest) == Corrupt
    decreases 96 - netmask
  {
    var bits := Zeros(96 - netmask) + rest;
    assert !bits[0] && bits[1..] == Zeros(96 - (netmask + 1)) + rest;
    var r := Record(db, node, false).value;
    if r != 0 {
      ZeroOnRunFails(db, r, netmask + 1, rest);
    }
  }

  /** The run of left records leads to a network of the address: it ends in one, or at a search node
      with one below it. */
  ghost predicate StartFinds(db: Db, address: seq<byte>)
    requires Opened(db)
  {
    var run := LeftRun(db, 0, 0);
    && run.Run?
    && (IsNetwork(db, run.node)
        || (0 < run.node < db.nodeCount && exists k :: NetworkAt(db, run.node, AddressBits(address), k)))
  }

  lemma WalkSucceeds(db: Db, node: nat, bits: seq<bool>)
    requires Opened(db)
    ensures Walk(db, node, bits).Done? <==> exists k :: NetworkAt(db, node, bits, k)
  {
    hide Follow;
    if Walk(db, node, bits).Done? {
      var k := WalkFindsNetwork(db, node, bits);
    }
    if k :| NetworkAt(db, node, bits, k) {
      WalkMeaning(db, node, bits, k);
    }
  }

  /** The short lookup succeeds exactly if the start node leads to a network. */
  lemma ShortLookupSucceeds(db: Db, address: seq<byte>)
    requires Opened(db) && db.v6 && |address| == 4
    ensures Find(db, Mapped(address), true).Done? <==> StartFinds(db, address)
  {
    FindMapped(db, address);
    MappedBits(address);
    RunEnds(db, 0, 0);
    var run := LeftRun(db, 0, 0);
    if run.Run? {
      WalkSucceeds(db, run.node, AddressBits(address));
    }
    hide AddressBits, Mapped, Find, LeftRun, NetworkAt, Walk;
  }

  /** The two lookups agree exactly if no record on the run is zero, or the run leads to no network. */
  lemma AgreementExact(db: Db, address: seq<byte>)
    requires Opened(db) && db.v6 && |address| == 4
    ensures var fast, slow := Find(db, Mapped(address), true), Walk(db, 0, AddressBits(Mapped(address)));
      (&& (fast == Corrupt <==> slow == Corrupt)
       && (slow.Done? ==> fast.found == slow.found && fast.offset == slow.offset))
      <==> NoZeroRun(db, 0, 0) || !StartFinds(db, address)
  {
    ShortLookupSucceeds(db, address);
    if NoZeroRun(db, 0, 0) {
      StartNodeAgrees(db, address);
    } else {
      MappedBits(address);
      ZeroOnRunFails(db, 0, 0, AddressBits(address));
    }
    hide *;
  }

  /** Five nodes whose left records go round in a ring through the root, so that the run of 96 stops
      at node 1; its right record is a data record. */
  ghost predicate Ring(db: Db) {
    && Opened(db) && db.v6 && db.nodeCount == 5 && db.dataSize == 20
    && Record(db, 0, false) == Some(1) && Record(db, 1, false) == Some(2) && Record(db, 2, false) == Some(3)
    && Record(db, 3, false) == Some(4) && Record(db, 4, false) == Some(0) && Record(db, 1, true) == Some(21)
  }

  /** The bytes of such a tree with 24-bit records; the other right records are empty. */
  function RingByte(at: nat): byte {
    if at == 2 then 1 else if at == 8 then 2 else if at == 14 then 3 else if at == 20 then 4
    else if at == 11 then 21 else if at == 5 || at == 17 || at == 23 || at == 29 then 5 else 0
  }

  lemma RingExists() returns (db: Db)
    ensures Ring(db)
  {
    db := Db(seq(66, at requires at >= 0 => RingByte(at)), 46, 20, 5, 6, true);
    assert Record(db, 0, false) == Some(1);
    assert Record(db, 1, false) == Some(2);
    assert Record(db, 2, false) == Some(3);
    assert Record(db, 3, false) == Some(4);
    assert Record(db, 4, false) == Some(0);
    assert Record(db, 1, true) == Some(21);
    hide *;
  }

  lemma RingStep(db: Db, netmask: nat)
    requires Ring(db) && netmask < 96
    ensures LeftRun(db, netmask % 5, netmask) == LeftRun(db, (netmask + 1) % 5, netmask + 1)
  {
    hide Record;
    var node := netmask % 5;
    assert node == 0 || node == 1 || node == 2 || node == 3 || node == 4;
  }

  lemma {:induction false} RingRun(db: Db, netmask: nat)
    requires Ring(db) && netmask <= 96
    ensures LeftRun(db, netmask % 5, netmask) == Run(1, 96)
    decreases 96 - netmask
  {
    if netmask < 96 {
      RingStep(db, netmask);
      RingRun(db, netmask + 1);
      hide *;
    }
  }

  lemma RingZero(db: Db)
    requires Ring(db)
    ensures !NoZeroRun(db, 0, 0)
  {
    hide Record;
    assert !NoZeroRun(db, 4, 4) && !NoZeroRun(db, 3, 3) && !NoZeroRun(db, 2, 2);
  }

  /** The two lookups can differ: in the ring, 128.0.0.0 is found from the start node, while the walk
      over all 128 bits ends in an error. */
  lemma RingDisagrees(db: Db, address: seq<byte>)
    requires Ring(db) && address == [128, 0, 0, 0]
    ensures !NoZeroRun(db, 0, 0) && StartFinds(db, address)
    ensures Find(db, Mapped(address), true) == Done(true, 0, 97)
    ensures Walk(db, 0, AddressBits(Mapped(address))) == Corrupt
  {
    hide Record, Opened;
    RingRun(db, 0);
    RingZero(db);
    ZeroOnRunFails(db, 0, 0, AddressBits(address));
    MappedBits(address);
    FindMapped(db, address);
    ShortLookupSucceeds(db, address);
    assert AddressBit(address, 0);
    var bits := AddressBits(address);
    assert bits[0] && |bits| == 32;
    hide AddressBits, Mapped, LeftRun, NoZeroRun, StartFinds, Find;
    assert Walk(db, 1, bits) == Populated(db, 21, 31);
  }

  /** One node whose left record is a data record. */
  ghost predicate Stump(db: Db) {
    Opened(db) && db.v6 && db.nodeCount == 1 && db.dataSize == 20 && Record(db, 0, false) == Some(17)
  }

  /** The netmasks can differ: the network of the stump's left record has one bit, which is what the
      long walk reports; the lookup from the start node reports 128. */
  lemma StumpNetmasks(db: Db, address: seq<byte>)
    requires Stump(db) && |address| == 4
    ensures NoZeroRun(db, 0, 0)
    ensures Find(db, Mapped(address), true) == Done(true, 0, 128)
    ensures Walk(db, 0, AddressBits(Mapped(address))) == Done(true, 0, 1)
  {
    hide Record, Opened;
    MappedBits(address);
    FindMapped(db, address);
    hide AddressBits, Mapped, Find;
  }

  lemma StumpExists() returns (db: Db)
    ensures Stump(db)
  {
    db := Db([0, 0, 17, 0, 0, 1] + seq(36, _ => 0), 22, 20, 1, 6, true);
  }

  /** In a tree without any zero record none is on the run. */
  lemma {:induction false} NoZeroRecords(db: Db, node: nat, netmask: nat)
    requires Opened(db) && netmask <= 96
    requires forall n, right :: Record(db, n, right) != Some(0)
    ensures NoZeroRun(db, node, netmask)
    decreases 96 - netmask
  {
    if netmask < 96 && Record(db, node, false).Some? {
      assert Record(db, node, false) != Some(0);
      NoZeroRecords(db, Record(db, node, false).value, netmask + 1);
    }
  }

  // ---------------------------------------------------------------------------------------------
  // The code

  /** An open database with its cached start node. */
  class Reader {
    const db: Db
    var startValue: nat
    var startNetmask: nat

    ghost predicate Valid()
      reads this
    {
      Opened(db) && (startValue == 0 || LeftRun(db, 0, 0) == Run(startValue, startNetmask))
    }

    constructor (db: Db)
      requires Opened(db)
      ensures this.db == db && Valid()
    {
      this.db := db;
      startValue, startNetmask := 0, 0;
    }

    /** find_ipv4_start_node; false is the corrupt search tree error. */
    method FindIpv4StartNode() returns (ok: bool)
      requires Valid()
      modifies this
      ensures Valid() && (ok <==> LeftRun(db, 0, 0).Run?)
      ensures ok ==> LeftRun(db, 0, 0) == Run(startValue, startNetmask)
      ensures !ok ==> startValue == old(startValue) && startNetmask == old(startNetmask)
    {
      if startValue != 0 {
        return true;
      }
      var node := 0;
      var netmask := 0;
      while netmask < 96
        invariant 0 <= netmask <= 96 && 0 <= node && LeftRun(db, 0, 0) == LeftRun(db, node, netmask)
        invariant startValue == old(startValue) && startNetmask == old(startNetmask)
      {
        var at := node * db.recordLength % TWO_32;
        if at + db.recordLength > db.dataStart {
          return false;
        }
        node := RecordAt(db.content, at, db.recordLength, false);
        if node >= db.nodeCount {
          break;
        }
        netmask := netmask + 1;
      }
      startValue, startNetmask := node, netmask;
      return true;
    }

    lemma BitAt(address: seq<byte>, k: nat)
      requires k < 8 * |address|
      ensures AddressBits(address)[k] == AddressBit(address, k)
    {
    }

    /** The loop of find_address_in_search_tree over the bits of the address. */
    method WalkBits(address: seq<byte>, start: nat, startBit: int) returns (r: Outcome)
      requires Opened(db) && 8 * |address| == Depth(db) && -1 <= startBit < Depth(db)
      ensures r == Walk(db, start, AddressBits(address)[Depth(db) - 1 - startBit..])
    {
      hide Depth, AddressBits, Populated, RecordType;
      ghost var all := AddressBits(address);
      var node := start;
      var bit := startBit;
      while bit >= 0
        invariant -1 <= bit < Depth(db) && 0 <= node
        invariant Walk(db, start, all[Depth(db) - 1 - startBit..]) == Walk(db, node, all[Depth(db) - 1 - bit..])
      {
        var k := Depth(db) - 1 - bit;
        var right := AddressBit(address, k);
        ghost var bits := all[k..];
        BitAt(address, k);
        assert bits[0] == right && bits[1..] == all[k + 1..] && |bits| == bit + 1;
        var at := node * db.recordLength % TWO_32;
        if at + db.recordLength > db.dataStart {
          return Corrupt;
        }
        node := RecordAt(db.content, at, db.recordLength, right);
        var kind := RecordType(db, node);
        if kind == Invalid {
          return Corrupt;
        }
        if kind != SearchNode {
          return Populated(db, node, bit);
        }
        bit := bit - 1;
      }
      return Corrupt;
    }

    /** find_address_in_search_tree. Whatever the cache holds, the result is that of Find. */
    method FindAddress(address: seq<byte>, ipv4: bool) returns (r: Outcome)
      requires Valid() && 8 * |address| == Depth(db)
      modifies this
      ensures Valid() && r == Find(db, address, ipv4)
    {
      var node := 0;
      var bit := Depth(db) - 1;
      if db.v6 && ipv4 {
        var ok := FindIpv4StartNode();
        if !ok {
          return Corrupt;
        }
        var kind := RecordType(db, startValue);
        if kind == Invalid {
          return Corrupt;
        }
        if kind != SearchNode {
          return Populated(db, startValue, startNetmask);
        }
        node := startValue;
        bit := bit - startNetmask;
      }
      r := WalkBits(address, node, bit);
    }

    /** MMDB_lookup_sockaddr; None is the error for an IPv6 address in an IPv4 tree. */
    method LookupAddress(address: seq<byte>, ipv4: bool) returns (r: Option<Outcome>)
      requires Valid() && |address| == if ipv4 then 4 else 16
      modifies this
      ensures Valid() && (r == None <==> !db.v6 && !ipv4)
      ensures r.Some? ==>
        r.value == if db.v6 && ipv4 then Find(db, Mapped(address), true) else Walk(db, 0, AddressBits(address))
    {
      if !db.v6 && !ipv4 {
        return None;
      }
      var full := if db.v6 && ipv4 then Mapped(address) else address;
      var o := FindAddress(full, ipv4);
      return Some(o);
    }
  }
}
