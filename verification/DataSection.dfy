/** decode_one of geoip/maxminddb.c: one entry of the data section, and how entries are written
    (section "Output Data Section" of the MaxMind DB File Format Specification 2.0). */
module DataSection {
  import opened Bytes
  import opened SearchTree

  const TYPE_EXTENDED := 0
  const TYPE_POINTER := 1
  const TYPE_UTF8_STRING := 2
  const TYPE_DOUBLE := 3
  const TYPE_BYTES := 4
  const TYPE_UINT16 := 5
  const TYPE_UINT32 := 6
  const TYPE_MAP := 7
  const TYPE_INT32 := 8
  const TYPE_UINT64 := 9
  const TYPE_UINT128 := 10
  const TYPE_ARRAY := 11
  const TYPE_BOOLEAN := 14
  const TYPE_FLOAT := 15

  /** MMDB_open refuses data sections shorter than three bytes. */
  predicate SectionOk(s: seq<byte>) {
    3 <= |s| < TWO_32
  }

  /** `MMDB_entry_data_s`: `size` is the number of elements of a container or the length of a string;
      `payload` holds the bytes that a scalar's value is read from. */
  datatype Entry = Entry(kind: nat, offset: nat, size: nat, next: nat, pointer: nat, payload: seq<byte>, flag: bool)

  /** 32-bit subtraction, which wraps. */
  function Minus32(a: int, b: int): nat {
    (a - b) % TWO_32
  }

  datatype Head = Head(ctrl: nat, kind: nat, at: nat)

  /** The control byte and the extended type byte. */
  function DecodeHead(s: seq<byte>, offset: nat): (r: Option<Head>)
    requires SectionOk(s)
    ensures r.Some? ==> offset < r.value.at <= |s| && r.value.ctrl < 256
  {
    if offset > Minus32(|s|, 1) then None
    else
      var ctrl := s[offset] as nat;
      if ctrl / 32 != TYPE_EXTENDED then Some(Head(ctrl, ctrl / 32, offset + 1))
      else if offset + 1 > Minus32(|s|, 1) then None
      else Some(Head(ctrl, 7 + s[offset + 1] as nat, offset + 2))
  }

  datatype Sized = Sized(size: nat, at: nat)

  /** The payload size, or number of elements, in its four widths. */
  function DecodeSize(s: seq<byte>, ctrl: nat, at: nat): (r: Option<Sized>)
    requires SectionOk(s) && at <= |s|
    ensures r.Some? ==> at <= r.value.at <= |s|
  {
    var size := ctrl % 32;
    if size == 29 then
      if at > Minus32(|s|, 1) then None else Some(Sized(29 + s[at] as nat, at + 1))
    else if size == 30 then
      if at > Minus32(|s|, 2) then None else Some(Sized(285 + s[at] as nat * 256 + s[at + 1] as nat, at + 2))
    else if size == 31 then
      if at > Minus32(|s|, 3) then None else Some(Sized(65821 + Uint24(s, at), at + 3))
    else Some(Sized(size, at))
  }

  /** A size below 29 stands in the control byte; otherwise one to three bytes follow as a number, which
      counts on from the largest size that fewer bytes can say. */
  lemma SizeIs(s: seq<byte>, ctrl: nat, at: nat)
    requires SectionOk(s) && at <= |s|
    ensures var code, r := ctrl % 32, DecodeSize(s, ctrl, at);
      && (code < 29 ==> r == Some(Sized(code, at)))
      && (code >= 29 ==> (r.Some? <==> at + (code - 28) <= |s|))
      && (code == 29 && r.Some? ==> r.value == Sized(29 + s[at] as nat, at + 1))
      && (code == 30 && r.Some? ==> r.value == Sized(29 + 256 + Number([s[at], s[at + 1]]), at + 2))
      && (code == 31 && r.Some? ==>
            r.value == Sized(29 + 256 + 65536 + Number([s[at], s[at + 1], s[at + 2]]), at + 3))
  {
    hide Number;
    if at + 2 <= |s| {
      NumberOfThree(s[at], s[at + 1], 0);
    }
    if at + 3 <= |s| {
      NumberOfThree(s[at], s[at + 1], s[at + 2]);
    }
  }

  /** get_ptr_from. */
  function PointerValue(s: seq<byte>, ctrl: nat, at: nat, width: nat): (r: nat)
    requires 1 <= width <= 4 && at + width <= |s|
    ensures r < TWO_32
  {
    if width == 1 then ctrl % 8 * 256 + s[at] as nat
    else if width == 2 then 2048 + ctrl % 8 * 65536 + s[at] as nat * 256 + s[at + 1] as nat
    else if width == 3 then 2048 + 524288 + ctrl % 8 * 16777216 + Uint24(s, at)
    else Uint32(s, at)
  }

  /** A pointer of up to three bytes has three more bits in the control byte, and each width counts on
      from the largest pointer of the width below; four bytes are the pointer itself. */
  lemma PointerIs(s: seq<byte>, ctrl: nat, at: nat)
    ensures at + 1 <= |s| ==> PointerValue(s, ctrl, at, 1) == ctrl % 8 * 256 + s[at] as nat
    ensures at + 2 <= |s| ==>
      PointerValue(s, ctrl, at, 2) == 8 * 256 + ctrl % 8 * 65536 + Number([s[at], s[at + 1]])
    ensures at + 3 <= |s| ==>
      PointerValue(s, ctrl, at, 3) == 8 * 256 + 8 * 65536 + ctrl % 8 * 16777216 + Number([s[at], s[at + 1], s[at + 2]])
    ensures at + 4 <= |s| ==>
      PointerValue(s, ctrl, at, 4) == Number([s[at], s[at + 1], s[at + 2], s[at + 3]])
  {
    hide Number;
    if at + 2 <= |s| {
      NumberOfThree(s[at], s[at + 1], 0);
    }
    if at + 3 <= |s| {
      NumberOfThree(s[at], s[at + 1], s[at + 2]);
    }
    if at + 4 <= |s| {
      NumberOfFour(s[at], s[at + 1], s[at + 2], s[at + 3]);
    }
  }

  /** The sizes that a scalar of the given type may have. */
  predicate SizeAllowed(kind: nat, size: nat) {
    if kind == TYPE_UINT16 then size <= 2
    else if kind == TYPE_UINT32 || kind == TYPE_INT32 then size <= 4
    else if kind == TYPE_UINT64 then size <= 8
    else if kind == TYPE_UINT128 then size <= 16
    else if kind == TYPE_FLOAT then size == 4
    else if kind == TYPE_DOUBLE then size == 8
    else true
  }

  /** decode_one; None is the invalid data error. A decoded entry ends strictly after its start and
      inside the section, whatever the bytes are. */
  function Decode(s: seq<byte>, offset: nat): (r: Option<Entry>)
    requires SectionOk(s)
    ensures r.Some? ==> r.value.offset == offset < r.value.next <= |s| && r.value.pointer < TWO_32
  {
    match DecodeHead(s, offset)
    case None => None
    case Some(Head(ctrl, kind, at)) =>
      if kind == TYPE_POINTER then
        var width := ctrl / 8 % 4 + 1;
        if at > Minus32(|s|, width) || |s| < width then None
        else Some(Entry(kind, offset, width, at + width, PointerValue(s, ctrl, at, width), [], false))
      else
        match DecodeSize(s, ctrl, at)
        case None => None
        case Some(Sized(size, at)) =>
          if kind == TYPE_MAP || kind == TYPE_ARRAY then Some(Entry(kind, offset, size, at, 0, [], false))
          else if kind == TYPE_BOOLEAN then Some(Entry(kind, offset, 0, at, 0, [], size != 0))
          else if at > Minus32(|s|, size) || |s| < size then None
          else if !SizeAllowed(kind, size) then None
          else Some(Entry(kind, offset, if kind == TYPE_UTF8_STRING || kind == TYPE_BYTES then size else 0,
                          at + size, 0, s[at..at + size], false))
  }

  /** The type stands in the top three bits of the control byte, or in a byte of its own; a pointer says in
      two further bits how many bytes it has. */
  lemma KindIs(s: seq<byte>, offset: nat)
    requires SectionOk(s) && Decode(s, offset).Some?
    ensures var r, ctrl := Decode(s, offset).value, s[offset] as nat;
      && (ctrl >= 32 ==> r.kind == ctrl / 32)
      && (ctrl < 32 ==> offset + 1 < |s| && r.kind == 7 + s[offset + 1] as nat)
      && (r.kind == 1 ==> r.size == 1 + ctrl / 8 % 4 && r.next == offset + 1 + r.size
                          && r.pointer == PointerValue(s, ctrl, offset + 1, r.size))
  {
    hide PointerValue, SizeAllowed;
  }

  // ---------------------------------------------------------------------------------------------
  // Writing entries

  /** `part` stands in `s` at `at`. */
  predicate Stands(s: seq<byte>, at: nat, part: seq<byte>) {
    at + |part| <= |s| && s[at..at + |part|] == part
  }

  const SIZE_LIMIT := 65821 + 16777216

  function SizeCode(size: nat): nat {
    if size < 29 then size else if size < 285 then 29 else if size < 65821 then 30 else 31
  }

  function SizeBytes(size: nat): seq<byte>
    requires size < SIZE_LIMIT
  {
    if size < 29 then []
    else if size < 285 then [(size - 29) as byte]
    else if size < 65821 then [((size - 285) / 256) as byte, ((size - 285) % 256) as byte]
    else BigEndian24(size - 65821)
  }

  /** The bytes in front of the payload of an entry that is no pointer. */
  function HeadBytes(kind: nat, size: nat): (r: seq<byte>)
    requires 2 <= kind < 263 && size < SIZE_LIMIT
  {
    (if kind < 8 then [(kind * 32 + SizeCode(size)) as byte] else [SizeCode(size) as byte, (kind - 7) as byte])
    + SizeBytes(size)
  }

  /** A pointer in one of its four widths. */
  predicate PointerFits(target: nat, width: nat) {
    match width
    case 1 => target < 2048
    case 2 => 2048 <= target < 2048 + 524288
    case 3 => 526336 <= target < 526336 + 134217728
    case 4 => target < TWO_32
    case _ => false
  }

  function PointerBytes(target: nat, width: nat): seq<byte>
    requires PointerFits(target, width)
  {
    if width == 1 then [(32 + target / 256) as byte, (target % 256) as byte]
    else if width == 2 then
      var t := target - 2048;
      [(40 + t / 65536) as byte, (t / 256 % 256) as byte, (t % 256) as byte]
    else if width == 3 then
      var t := target - 526336;
      [(48 + t / 16777216) as byte] + BigEndian24(t)
    else [56, (target / 16777216) as byte] + BigEndian24(target)
  }

  lemma PartAt(s: seq<byte>, at: nat, part: seq<byte>, i: nat)
    requires Stands(s, at, part) && i < |part|
    ensures s[at + i] == part[i]
  {
    assert s[at..at + |part|][i] == part[i];
  }

  lemma PartFrom(s: seq<byte>, at: nat, part: seq<byte>, i: nat)
    requires Stands(s, at, part) && i <= |part|
    ensures at + |part| <= |s| && Stands(s, at + i, part[i..])
  {
    assert s[at..at + |part|][i..] == s[at + i..at + |part|];
  }

  lemma HeadCode(kind: nat, code: nat)
    requires code < 32
    ensures (kind * 32 + code) / 32 == kind && (kind * 32 + code) % 32 == code
  {
  }

  lemma ShortHead(s: seq<byte>, offset: nat, kind: nat, size: nat)
    requires 2 <= kind < 8 && size < SIZE_LIMIT && Stands(s, offset, HeadBytes(kind, size))
    ensures offset < |s| && s[offset] as nat == kind * 32 + SizeCode(size)
    ensures |HeadBytes(kind, size)| == 1 + |SizeBytes(size)| && Stands(s, offset + 1, SizeBytes(size))
  {
    hide SizeBytes, SizeCode;
    PartAt(s, offset, HeadBytes(kind, size), 0);
    PartFrom(s, offset, HeadBytes(kind, size), 1);
    assert HeadBytes(kind, size)[1..] == SizeBytes(size);
    hide Stands;
  }

  lemma LongHead(s: seq<byte>, offset: nat, kind: nat, size: nat)
    requires 8 <= kind < 263 && size < SIZE_LIMIT && Stands(s, offset, HeadBytes(kind, size))
    ensures offset + 1 < |s| && s[offset] as nat == SizeCode(size) && s[offset + 1] as nat == kind - 7
    ensures |HeadBytes(kind, size)| == 2 + |SizeBytes(size)| && Stands(s, offset + 2, SizeBytes(size))
  {
    hide SizeBytes, SizeCode;
    PartAt(s, offset, HeadBytes(kind, size), 0);
    PartAt(s, offset, HeadBytes(kind, size), 1);
    PartFrom(s, offset, HeadBytes(kind, size), 2);
    assert HeadBytes(kind, size)[2..] == SizeBytes(size);
    hide Stands;
  }

  lemma HeadReadBack(s: seq<byte>, offset: nat, kind: nat, size: nat)
    requires SectionOk(s) && 2 <= kind < 263 && size < SIZE_LIMIT && Stands(s, offset, HeadBytes(kind, size))
    ensures var at := offset + |HeadBytes(kind, size)| - |SizeBytes(size)|;
      && DecodeHead(s, offset).Some? && DecodeHead(s, offset).value.at == at
      && DecodeHead(s, offset).value.kind == kind && DecodeHead(s, offset).value.ctrl % 32 == SizeCode(size)
      && Stands(s, at, SizeBytes(size))
  {
    hide HeadBytes, SizeBytes, Stands;
    HeadCode(kind, SizeCode(size));
    if kind < 8 {
      ShortHead(s, offset, kind, size);
    } else {
      LongHead(s, offset, kind, size);
    }
  }

  lemma ShortSize(size: nat)
    requires size < 29
    ensures |SizeBytes(size)| == 0
  {
  }

  lemma StandsWithin(s: seq<byte>, at: nat, part: seq<byte>)
    requires Stands(s, at, part)
    ensures at + |part| <= |s|
  {
  }

  lemma SizeBack1(s: seq<byte>, at: nat, size: nat)
    requires 29 <= size < 285 && Stands(s, at, SizeBytes(size))
    ensures |SizeBytes(size)| == 1 && at + 1 <= |s| && 29 + s[at] as nat == size
  {
    PartAt(s, at, SizeBytes(size), 0);
  }

  lemma SizeBack2(s: seq<byte>, at: nat, size: nat)
    requires 285 <= size < 65821 && Stands(s, at, SizeBytes(size))
    ensures |SizeBytes(size)| == 2 && at + 2 <= |s| && 285 + s[at] as nat * 256 + s[at + 1] as nat == size
  {
    PartAt(s, at, SizeBytes(size), 0);
    PartAt(s, at, SizeBytes(size), 1);
    hide Stands;
  }

  lemma SizeBack3(s: seq<byte>, at: nat, size: nat)
    requires 65821 <= size < SIZE_LIMIT && Stands(s, at, SizeBytes(size))
    ensures |SizeBytes(size)| == 3 && at + 3 <= |s| && 65821 + Uint24(s, at) == size
  {
    hide BigEndian24, Uint24;
    ReadBack24(s, at, size - 65821);
  }

  lemma SizeReadBack(s: seq<byte>, ctrl: nat, at: nat, size: nat)
    requires SectionOk(s) && size < SIZE_LIMIT && ctrl % 32 == SizeCode(size) && Stands(s, at, SizeBytes(size))
    ensures DecodeSize(s, ctrl, at) == Some(Sized(size, at + |SizeBytes(size)|))
  {
    hide Uint24, SizeBytes, Stands;
    if size < 29 {
      assert |SizeBytes(size)| == 0 by { ShortSize(size); }
    } else if size < 285 {
      SizeBack1(s, at, size);
    } else if size < 65821 {
      SizeBack2(s, at, size);
    } else {
      SizeBack3(s, at, size);
    }
    assert at <= |s| by { StandsWithin(s, at, SizeBytes(size)); }
  }

  /** What decode_one makes of an entry once its head and its size are read. */
  lemma DecodeBody(s: seq<byte>, offset: nat, head: Head, size: nat, at: nat)
    requires SectionOk(s) && DecodeHead(s, offset) == Some(head) && head.kind != TYPE_POINTER
    requires DecodeSize(s, head.ctrl, head.at) == Some(Sized(size, at))
    ensures at <= |s|
    ensures var kind, fits := head.kind, size <= |s| && at + size <= |s|;
      Decode(s, offset) ==
        if kind == TYPE_MAP || kind == TYPE_ARRAY then Some(Entry(kind, offset, size, at, 0, [], false))
        else if kind == TYPE_BOOLEAN then Some(Entry(kind, offset, 0, at, 0, [], size != 0))
        else if !fits || !SizeAllowed(kind, size) then None
        else Some(Entry(kind, offset, if kind == TYPE_UTF8_STRING || kind == TYPE_BYTES then size else 0,
                        at + size, 0, s[at..at + size], false))
  {
    hide DecodeHead, DecodeSize, SizeAllowed;
  }

  /** Head and size of what was written. */
  lemma Written(s: seq<byte>, offset: nat, kind: nat, size: nat) returns (head: Head)
    requires SectionOk(s) && 2 <= kind < 263 && size < SIZE_LIMIT && Stands(s, offset, HeadBytes(kind, size))
    ensures DecodeHead(s, offset) == Some(head) && head.kind == kind
    ensures DecodeSize(s, head.ctrl, head.at) == Some(Sized(size, offset + |HeadBytes(kind, size)|))
  {
    hide *;
    HeadReadBack(s, offset, kind, size);
    head := DecodeHead(s, offset).value;
    SizeReadBack(s, head.ctrl, head.at, size);
  }

  /** Reading back what was written: every entry that is no pointer. A map (7), an array (11) or a boolean
      (14) has no payload; strings (2) and bytes (4) keep their size, as maps and arrays do. */
  lemma EntryRoundTrip(s: seq<byte>, offset: nat, kind: nat, size: nat, payload: seq<byte>)
    requires SectionOk(s) && 2 <= kind < 263 && size < SIZE_LIMIT
    requires (kind == 5 ==> size <= 2) && (kind == 6 || kind == 8 ==> size <= 4)
    requires (kind == 9 ==> size <= 8) && (kind == 10 ==> size <= 16)
    requires (kind == 15 ==> size == 4) && (kind == 3 ==> size == 8)
    requires |payload| == if kind in {7, 11, 14} then 0 else size
    requires Stands(s, offset, HeadBytes(kind, size)) && Stands(s, offset + |HeadBytes(kind, size)|, payload)
    ensures Decode(s, offset) == Some(Entry(kind, offset,
      if kind in {2, 4, 7, 11} then size else 0,
      offset + |HeadBytes(kind, size)| + |payload|, 0, payload, kind == 14 && size != 0))
  {
    hide HeadBytes, SizeBytes, DecodeHead, DecodeSize, SizeCode, Decode;
    var head := Written(s, offset, kind, size);
    DecodeBody(s, offset, head, size, offset + |HeadBytes(kind, size)|);
  }

  /** Which entries are decoded, by the type numbers and sizes of the format: maps (7), arrays (11) and
      booleans (14) always; everything else if its payload is in the section and, for unsigned numbers of
      16 (5), 32 (6), 64 (9) and 128 bits (10) and signed ones of 32 (8), has no more bytes than the type;
      floats (15) and doubles (3) need all of theirs. */
  lemma DecodedExactly(s: seq<byte>, offset: nat, kind: nat, size: nat)
    requires SectionOk(s) && 2 <= kind < 263 && size < SIZE_LIMIT && Stands(s, offset, HeadBytes(kind, size))
    ensures Decode(s, offset).Some? <==>
      || kind == 7 || kind == 11 || kind == 14
      || (&& offset + |HeadBytes(kind, size)| + size <= |s|
          && (kind == 5 ==> size <= 2) && (kind == 6 || kind == 8 ==> size <= 4)
          && (kind == 9 ==> size <= 8) && (kind == 10 ==> size <= 16)
          && (kind == 15 ==> size == 4) && (kind == 3 ==> size == 8))
  {
    hide HeadBytes, SizeBytes, DecodeHead, DecodeSize, SizeCode, Decode, Stands;
    var head := Written(s, offset, kind, size);
    DecodeBody(s, offset, head, size, offset + |HeadBytes(kind, size)|);
  }

  lemma PointerControl(target: nat, width: nat)
    requires PointerFits(target, width)
    ensures |PointerBytes(target, width)| == width + 1
    ensures var ctrl := PointerBytes(target, width)[0] as nat;
      && ctrl / 32 == 1 && ctrl / 8 % 4 + 1 == width
      && (width == 1 ==> ctrl % 8 == target / 256)
      && (width == 2 ==> ctrl % 8 == (target - 2048) / 65536)
      && (width == 3 ==> ctrl % 8 == (target - 526336) / 16777216)
  {
    hide BigEndian24;
    if width == 2 {
      assert (target - 2048) / 65536 < 8;
    } else if width == 3 {
      assert (target - 526336) / 16777216 < 8;
    }
  }

  lemma PointerTail1(target: nat)
    requires PointerFits(target, 1)
    ensures var b := PointerBytes(target, 1);
      target / 256 * 256 + b[1] as nat == target
  {
  }

  lemma PointerTail2(target: nat)
    requires PointerFits(target, 2)
    ensures var b := PointerBytes(target, 2);
      2048 + (target - 2048) / 65536 * 65536 + b[1] as nat * 256 + b[2] as nat == target
  {
    var t := target - 2048;
    Digits(t);
    assert t < 16777216;
  }

  lemma PointerTail3(s: seq<byte>, offset: nat, target: nat)
    requires PointerFits(target, 3) && Stands(s, offset, PointerBytes(target, 3))
    ensures offset + 4 <= |s|
    ensures 526336 + (target - 526336) / 16777216 * 16777216 + Uint24(s, offset + 1) == target
  {
    hide BigEndian24, Uint24;
    var b := PointerBytes(target, 3);
    assert s[offset + 1..offset + 4] == s[offset..offset + 4][1..] == b[1..] == BigEndian24(target - 526336);
    ReadBack24(s, offset + 1, target - 526336);
  }

  lemma TopByte(s: seq<byte>, at: nat)
    requires at + 4 <= |s|
    ensures Uint32(s, at) == s[at] as nat * 16777216 + Uint24(s, at + 1)
  {
  }

  lemma PointerTail4(s: seq<byte>, offset: nat, target: nat)
    requires PointerFits(target, 4) && Stands(s, offset, PointerBytes(target, 4))
    ensures offset + 5 <= |s| && Uint32(s, offset + 1) == target
  {
    hide BigEndian24, Uint24, Uint32;
    var b := PointerBytes(target, 4);
    PartAt(s, offset, b, 1);
    assert s[offset + 2..offset + 5] == s[offset..offset + 5][2..] == b[2..] == BigEndian24(target);
    ReadBack24(s, offset + 2, target);
    TopByte(s, offset + 1);
  }

  lemma PointerValueBack(s: seq<byte>, offset: nat, target: nat, width: nat)
    requires PointerFits(target, width) && Stands(s, offset, PointerBytes(target, width))
    ensures offset + 1 + width <= |s| && PointerValue(s, s[offset] as nat, offset + 1, width) == target
  {
    var b := PointerBytes(target, width);
    PointerControl(target, width);
    PartAt(s, offset, b, 0);
    PartAt(s, offset, b, 1);
    hide Stands, BigEndian24, Uint24, Uint32, PointerBytes;
    if width == 1 {
      PointerTail1(target);
    } else if width == 2 {
      PartAt(s, offset, b, 2);
      PointerTail2(target);
    } else if width == 3 {
      PointerTail3(s, offset, target);
    } else {
      PointerTail4(s, offset, target);
    }
  }

  /** Reading back a pointer in any width. */
  lemma PointerRoundTrip(s: seq<byte>, offset: nat, target: nat, width: nat)
    requires SectionOk(s) && PointerFits(target, width) && Stands(s, offset, PointerBytes(target, width))
    ensures Decode(s, offset) == Some(Entry(TYPE_POINTER, offset, width, offset + 1 + width, target, [], false))
  {
    hide PointerBytes, PointerValue, DecodeSize;
    PointerControl(target, width);
    PointerValueBack(s, offset, target, width);
    assert s[offset] == PointerBytes(target, width)[0];
  }

  // ---------------------------------------------------------------------------------------------
  // Numbers

  /** The loop of get_uintX. */
  method GetUintX(p: seq<byte>) returns (value: nat)
    ensures value == Number(p)
  {
    value := 0;
    var i := 0;
    while i < |p|
      invariant 0 <= i <= |p| && value == Number(p[..i])
    {
      assert p[..i + 1][..i] == p[..i];
      value := value * 256 + p[i] as nat;
      i := i + 1;
    }
    assert p[..i] == p;
  }

  function Bytes256(n: nat): nat {
    if n == 0 then 1 else 256 * Bytes256(n - 1)
  }

  /** A number fits its number of bytes, so the casts to 16, 32 and 64 bits in decode_one lose
      nothing, and no two payloads of equal length mean the same number. */
  lemma {:induction false} NumberFits(a: seq<byte>, b: seq<byte>)
    requires |a| == |b|
    ensures Number(a) < Bytes256(|a|)
    ensures Number(a) == Number(b) ==> a == b
  {
    if a != [] {
      var n := |a| - 1;
      NumberFits(a[..n], b[..n]);
      if Number(a) == Number(b) {
        assert a == a[..n] + [a[n]] && b == b[..n] + [b[n]];
      }
    }
  }
}
