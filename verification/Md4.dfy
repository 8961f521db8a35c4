/** The incremental MD4 of qcommon/md4.c, against the one-shot definition of RFC 1320. */
module Md4 {
  import opened Bytes

  datatype Words = Words(a: bv32, b: bv32, c: bv32, d: bv32)

  /** Section 3.3 of RFC 1320. */
  const START := Words(0x67452301, 0xefcdab89, 0x98badcfe, 0x10325476)

  // ---------------------------------------------------------------------------------------------
  // Section 3.4: the compression of one block

  function F(x: bv32, y: bv32, z: bv32): bv32 {
    (x & y) | (!x & z)
  }

  function G(x: bv32, y: bv32, z: bv32): bv32 {
    ((x & y) | (x & z)) | (y & z)
  }

  function H(x: bv32, y: bv32, z: bv32): bv32 {
    (x ^ y) ^ z
  }

  function RotateLeft(x: bv32, n: nat): bv32
    requires 0 < n < 32
  {
    (x << n) | (x >> (32 - n))
  }

  /** The operations of the three rounds. */
  function FF(a: bv32, b: bv32, c: bv32, d: bv32, x: bv32, s: nat): bv32
    requires 0 < s < 32
  {
    RotateLeft(a + (F(b, c, d) + x), s)
  }

  function GG(a: bv32, b: bv32, c: bv32, d: bv32, x: bv32, s: nat): bv32
    requires 0 < s < 32
  {
    RotateLeft(a + (G(b, c, d) + x + 0x5a827999), s)
  }

  function HH(a: bv32, b: bv32, c: bv32, d: bv32, x: bv32, s: nat): bv32
    requires 0 < s < 32
  {
    RotateLeft(a + (H(b, c, d) + x + 0x6ed9eba1), s)
  }

  /** One operation `[abcd k s]` of the document, in the round `round`. */
  datatype Op = Op(round: nat, k: nat, s: nat)

  predicate OpOk(op: Op) {
    1 <= op.round <= 3 && op.k < 16 && 0 < op.s < 32
  }

  function Mix(op: Op, a: bv32, b: bv32, c: bv32, d: bv32, x: seq<bv32>): bv32
    requires OpOk(op) && |x| == 16
  {
    if op.round == 1 then FF(a, b, c, d, x[op.k], op.s)
    else if op.round == 2 then GG(a, b, c, d, x[op.k], op.s)
    else HH(a, b, c, d, x[op.k], op.s)
  }

  /** After an operation the four words change places, so that the next works on `d`. */
  function Apply(op: Op, w: Words, x: seq<bv32>): Words
    requires OpOk(op) && |x| == 16
  {
    Words(w.d, Mix(op, w.a, w.b, w.c, w.d, x), w.b, w.c)
  }

  /** A number of two bits with its bits exchanged. */
  function Reversed(k: nat): (r: nat)
    requires k < 4
    ensures r < 4
  {
    if k == 1 then 2 else if k == 2 then 1 else k
  }

  /** The i-th of the 48 operations. Round 1 takes the words of the block in order, round 2 column by
      column of a four by four square, round 3 in the order of their reversed four-bit numbers. */
  function OpAt(i: nat): (op: Op)
    requires i < 48
    ensures OpOk(op)
  {
    var j := i % 16;
    if i < 16 then Op(1, j, if j % 4 == 0 then 3 else if j % 4 == 1 then 7 else if j % 4 == 2 then 11 else 19)
    else if i < 32 then
      Op(2, j % 4 * 4 + j / 4, if j % 4 == 0 then 3 else if j % 4 == 1 then 5 else if j % 4 == 2 then 9 else 13)
    else
      Op(3, Reversed(j % 4) * 4 + Reversed(j / 4),
         if j % 4 == 0 then 3 else if j % 4 == 1 then 9 else if j % 4 == 2 then 11 else 15)
  }

  /** The words after the first `n` operations. */
  function Rounds(n: nat, w: Words, x: seq<bv32>): Words
    requires n <= 48 && |x| == 16
  {
    if n == 0 then w else Apply(OpAt(n - 1), Rounds(n - 1, w, x), x)
  }

  function BlockWords(block: seq<byte>): (x: seq<bv32>)
    requires |block| == 64
    ensures |x| == 16
  {
    seq(16, i requires 0 <= i < 16 => ReadLittleEndian(block, 4 * i) as bv32)
  }

  function Sum(v: Words, w: Words): Words {
    Words(v.a + w.a, v.b + w.b, v.c + w.c, v.d + w.d)
  }

  function Compress(w: Words, block: seq<byte>): Words
    requires |block| == 64
  {
    Sum(w, Rounds(48, w, BlockWords(block)))
  }

  /** Four operations bring the words back to their places. */
  lemma FourOps(n: nat, w: Words, x: seq<bv32>)
    requires n + 4 <= 48 && |x| == 16
    ensures var r := Rounds(n, w, x);
      var a := Mix(OpAt(n), r.a, r.b, r.c, r.d, x);
      var d := Mix(OpAt(n + 1), r.d, a, r.b, r.c, x);
      var c := Mix(OpAt(n + 2), r.c, d, a, r.b, x);
      var b := Mix(OpAt(n + 3), r.b, c, d, a, x);
      Rounds(n + 4, w, x) == Words(a, b, c, d)
  {
    hide OpAt, Mix;
    var r0 := Rounds(n, w, x);
    var r1 := Rounds(n + 1, w, x);
    var r2 := Rounds(n + 2, w, x);
    var r3 := Rounds(n + 3, w, x);
    assert r1 == Apply(OpAt(n), r0, x);
    assert r2 == Apply(OpAt(n + 1), r1, x);
    assert r3 == Apply(OpAt(n + 2), r2, x);
    assert Rounds(n + 4, w, x) == Apply(OpAt(n + 3), r3, x);
  }

  lemma FourFF(n: nat, w: Words, x: seq<bv32>, i: nat, j: nat, k: nat, l: nat)
    requires n + 4 <= 48 && |x| == 16 && i < 16 && j < 16 && k < 16 && l < 16
    requires OpAt(n) == Op(1, i, 3) && OpAt(n + 1) == Op(1, j, 7)
    requires OpAt(n + 2) == Op(1, k, 11) && OpAt(n + 3) == Op(1, l, 19)
    ensures var r := Rounds(n, w, x);
      var a := FF(r.a, r.b, r.c, r.d, x[i], 3);
      var d := FF(r.d, a, r.b, r.c, x[j], 7);
      var c := FF(r.c, d, a, r.b, x[k], 11);
      var b := FF(r.b, c, d, a, x[l], 19);
      Rounds(n + 4, w, x) == Words(a, b, c, d)
  {
    hide Rounds, OpAt, FF;
    FourOps(n, w, x);
  }

  lemma FourGG(n: nat, w: Words, x: seq<bv32>, i: nat, j: nat, k: nat, l: nat)
    requires n + 4 <= 48 && |x| == 16 && i < 16 && j < 16 && k < 16 && l < 16
    requires OpAt(n) == Op(2, i, 3) && OpAt(n + 1) == Op(2, j, 5)
    requires OpAt(n + 2) == Op(2, k, 9) && OpAt(n + 3) == Op(2, l, 13)
    ensures var r := Rounds(n, w, x);
      var a := GG(r.a, r.b, r.c, r.d, x[i], 3);
      var d := GG(r.d, a, r.b, r.c, x[j], 5);
      var c := GG(r.c, d, a, r.b, x[k], 9);
      var b := GG(r.b, c, d, a, x[l], 13);
      Rounds(n + 4, w, x) == Words(a, b, c, d)
  {
    hide Rounds, OpAt, GG;
    FourOps(n, w, x);
  }

  lemma FourHH(n: nat, w: Words, x: seq<bv32>, i: nat, j: nat, k: nat, l: nat)
    requires n + 4 <= 48 && |x| == 16 && i < 16 && j < 16 && k < 16 && l < 16
    requires OpAt(n) == Op(3, i, 3) && OpAt(n + 1) == Op(3, j, 9)
    requires OpAt(n + 2) == Op(3, k, 11) && OpAt(n + 3) == Op(3, l, 15)
    ensures var r := Rounds(n, w, x);
      var a := HH(r.a, r.b, r.c, r.d, x[i], 3);
      var d := HH(r.d, a, r.b, r.c, x[j], 9);
      var c := HH(r.c, d, a, r.b, x[k], 11);
      var b := HH(r.b, c, d, a, x[l], 15);
      Rounds(n + 4, w, x) == Words(a, b, c, d)
  {
    hide Rounds, OpAt, HH;
    FourOps(n, w, x);
  }

  lemma Ops1()
    ensures OpAt(0) == Op(1, 0, 3) && OpAt(1) == Op(1, 1, 7)
    ensures OpAt(2) == Op(1, 2, 11) && OpAt(3) == Op(1, 3, 19)
    ensures OpAt(4) == Op(1, 4, 3) && OpAt(5) == Op(1, 5, 7)
    ensures OpAt(6) == Op(1, 6, 11) && OpAt(7) == Op(1, 7, 19)
    ensures OpAt(8) == Op(1, 8, 3) && OpAt(9) == Op(1, 9, 7)
    ensures OpAt(10) == Op(1, 10, 11) && OpAt(11) == Op(1, 11, 19)
    ensures OpAt(12) == Op(1, 12, 3) && OpAt(13) == Op(1, 13, 7)
    ensures OpAt(14) == Op(1, 14, 11) && OpAt(15) == Op(1, 15, 19)
  {
  }

  lemma Ops2()
    ensures OpAt(16) == Op(2, 0, 3) && OpAt(17) == Op(2, 4, 5)
    ensures OpAt(18) == Op(2, 8, 9) && OpAt(19) == Op(2, 12, 13)
    ensures OpAt(20) == Op(2, 1, 3) && OpAt(21) == Op(2, 5, 5)
    ensures OpAt(22) == Op(2, 9, 9) && OpAt(23) == Op(2, 13, 13)
    ensures OpAt(24) == Op(2, 2, 3) && OpAt(25) == Op(2, 6, 5)
    ensures OpAt(26) == Op(2, 10, 9) && OpAt(27) == Op(2, 14, 13)
    ensures OpAt(28) == Op(2, 3, 3) && OpAt(29) == Op(2, 7, 5)
    ensures OpAt(30) == Op(2, 11, 9) && OpAt(31) == Op(2, 15, 13)
  {
  }

  lemma Ops3()
    ensures OpAt(32) == Op(3, 0, 3) && OpAt(33) == Op(3, 8, 9)
    ensures OpAt(34) == Op(3, 4, 11) && OpAt(35) == Op(3, 12, 15)
    ensures OpAt(36) == Op(3, 2, 3) && OpAt(37) == Op(3, 10, 9)
    ensures OpAt(38) == Op(3, 6, 11) && OpAt(39) == Op(3, 14, 15)
    ensures OpAt(40) == Op(3, 1, 3) && OpAt(41) == Op(3, 9, 9)
    ensures OpAt(42) == Op(3, 5, 11) && OpAt(43) == Op(3, 13, 15)
    ensures OpAt(44) == Op(3, 3, 3) && OpAt(45) == Op(3, 11, 9)
    ensures OpAt(46) == Op(3, 7, 11) && OpAt(47) == Op(3, 15, 15)
  {
  }

  lemma NoRounds(w: Words, x: seq<bv32>)
    requires |x| == 16
    ensures Rounds(0, w, x) == w
  {
  }

  method Round1(u: Words, ghost w: Words, x: seq<bv32>) returns (r: Words)
    requires |x| == 16 && u == Rounds(0, w, x)
    ensures r == Rounds(16, w, x)
  {
    Ops1();
    hide *;
    var a, b, c, d := u.a, u.b, u.c, u.d;
    FourFF(0, w, x, 0, 1, 2, 3);
    a := FF(a, b, c, d, x[0], 3);
    d := FF(d, a, b, c, x[1], 7);
    c := FF(c, d, a, b, x[2], 11);
    b := FF(b, c, d, a, x[3], 19);
    FourFF(4, w, x, 4, 5, 6, 7);
    a := FF(a, b, c, d, x[4], 3);
    d := FF(d, a, b, c, x[5], 7);
    c := FF(c, d, a, b, x[6], 11);
    b := FF(b, c, d, a, x[7], 19);
    FourFF(8, w, x, 8, 9, 10, 11);
    a := FF(a, b, c, d, x[8], 3);
    d := FF(d, a, b, c, x[9], 7);
    c := FF(c, d, a, b, x[10], 11);
    b := FF(b, c, d, a, x[11], 19);
    FourFF(12, w, x, 12, 13, 14, 15);
    a := FF(a, b, c, d, x[12], 3);
    d := FF(d, a, b, c, x[13], 7);
    c := FF(c, d, a, b, x[14], 11);
    b := FF(b, c, d, a, x[15], 19);
    return Words(a, b, c, d);
  }

  method Round2(u: Words, ghost w: Words, x: seq<bv32>) returns (r: Words)
    requires |x| == 16 && u == Rounds(16, w, x)
    ensures r == Rounds(32, w, x)
  {
    Ops2();
    hide *;
    var a, b, c, d := u.a, u.b, u.c, u.d;
    FourGG(16, w, x, 0, 4, 8, 12);
    a := GG(a, b, c, d, x[0], 3);
    d := GG(d, a, b, c, x[4], 5);
    c := GG(c, d, a, b, x[8], 9);
    b := GG(b, c, d, a, x[12], 13);
    FourGG(20, w, x, 1, 5, 9, 13);
    a := GG(a, b, c, d, x[1], 3);
    d := GG(d, a, b, c, x[5], 5);
    c := GG(c, d, a, b, x[9], 9);
    b := GG(b, c, d, a, x[13], 13);
    FourGG(24, w, x, 2, 6, 10, 14);
    a := GG(a, b, c, d, x[2], 3);
    d := GG(d, a, b, c, x[6], 5);
    c := GG(c, d, a, b, x[10], 9);
    b := GG(b, c, d, a, x[14], 13);
    FourGG(28, w, x, 3, 7, 11, 15);
    a := GG(a, b, c, d, x[3], 3);
    d := GG(d, a, b, c, x[7], 5);
    c := GG(c, d, a, b, x[11], 9);
    b := GG(b, c, d, a, x[15], 13);
    return Words(a, b, c, d);
  }

  method Round3(u: Words, ghost w: Words, x: seq<bv32>) returns (r: Words)
    requires |x| == 16 && u == Rounds(32, w, x)
    ensures r == Rounds(48, w, x)
  {
    Ops3();
    hide *;
    var a, b, c, d := u.a, u.b, u.c, u.d;
    FourHH(32, w, x, 0, 8, 4, 12);
    a := HH(a, b, c, d, x[0], 3);
    d := HH(d, a, b, c, x[8], 9);
    c := HH(c, d, a, b, x[4], 11);
    b := HH(b, c, d, a, x[12], 15);
    FourHH(36, w, x, 2, 10, 6, 14);
    a := HH(a, b, c, d, x[2], 3);
    d := HH(d, a, b, c, x[10], 9);
    c := HH(c, d, a, b, x[6], 11);
    b := HH(b, c, d, a, x[14], 15);
    FourHH(40, w, x, 1, 9, 5, 13);
    a := HH(a, b, c, d, x[1], 3);
    d := HH(d, a, b, c, x[9], 9);
    c := HH(c, d, a, b, x[5], 11);
    b := HH(b, c, d, a, x[13], 15);
    FourHH(44, w, x, 3, 11, 7, 15);
    a := HH(a, b, c, d, x[3], 3);
    d := HH(d, a, b, c, x[11], 9);
    c := HH(c, d, a, b, x[7], 11);
    b := HH(b, c, d, a, x[15], 15);
    return Words(a, b, c, d);
  }

  /** MD4Transform: the 48 operations written out. */
  method Transform(w: Words, block: seq<byte>) returns (r: Words)
    requires |block| == 64
    ensures r == Compress(w, block)
  {
    hide Rounds, BlockWords, Sum;
    var x := BlockWords(block);
    NoRounds(w, x);
    r := Round1(w, w, x);
    r := Round2(r, w, x);
    r := Round3(r, w, x);
    r := Sum(w, r);
  }

  // ---------------------------------------------------------------------------------------------
  // The one-shot definition

  /** The words after the first `k` blocks of the bytes. */
  function Blocks(bytes: seq<byte>, k: nat): Words
    requires 64 * k <= |bytes|
  {
    if k == 0 then START else Compress(Blocks(bytes, k - 1), bytes[64 * (k - 1)..64 * k])
  }

  lemma {:induction false} BlocksOfPrefix(bytes: seq<byte>, more: seq<byte>, k: nat)
    requires 64 * k <= |bytes|
    ensures Blocks(bytes + more, k) == Blocks(bytes, k)
    decreases k
  {
    hide Compress;
    if k > 0 {
      BlocksOfPrefix(bytes, more, k - 1);
      assert (bytes + more)[64 * (k - 1)..64 * k] == bytes[64 * (k - 1)..64 * k];
    }
  }

  /** Section 3.1: a 0x80 byte, then as few zero bytes as bring the length to 56 modulo 64. */
  function PadLength(n: nat): (p: nat)
    ensures 1 <= p <= 64 && (n + p) % 64 == 56
  {
    1 + (55 - n) % 64
  }

  function Padding(p: nat): (r: seq<byte>)
    requires p > 0
    ensures |r| == p
  {
    [0x80] + seq(p - 1, _ => 0)
  }

  lemma EightMore(n: nat)
    requires n % 64 == 56
    ensures (n + 8) % 64 == 0
  {
  }

  function Low(n: nat): (r: nat)
    ensures r < TWO_32
  {
    n % TWO_32
  }

  function High(n: nat): (r: nat)
    ensures r < TWO_32
  {
    n / TWO_32 % TWO_32
  }

  /** Sections 3.1 and 3.2: the padding and the number of bits, low word first, modulo 2^64. */
  function Padded(m: seq<byte>): (r: seq<byte>)
    ensures |r| % 64 == 0
  {
    EightMore(|m| + PadLength(|m|));
    m + Padding(PadLength(|m|)) + (LittleEndian(Low(8 * |m|)) + LittleEndian(High(8 * |m|)))
  }

  /** Section 3.5: the low-order byte of A first. */
  function WordBytes(w: Words): (r: seq<byte>)
    ensures |r| == 16
  {
    LittleEndian(w.a as nat) + LittleEndian(w.b as nat) + LittleEndian(w.c as nat) + LittleEndian(w.d as nat)
  }

  function Digest(m: seq<byte>): (r: seq<byte>)
    ensures |r| == 16
  {
    WordBytes(Blocks(Padded(m), |Padded(m)| / 64))
  }

  // ---------------------------------------------------------------------------------------------
  // What the constants and functions are

  /** The initial words are the bytes 01 23 45 67 89 ab cd ef and the same backwards. */
  lemma StartBytes()
    ensures WordBytes(START) == [0x01, 0x23, 0x45, 0x67, 0x89, 0xab, 0xcd, 0xef,
                                 0xfe, 0xdc, 0xba, 0x98, 0x76, 0x54, 0x32, 0x10]
  {
  }

  /** F chooses, bit by bit: where x is one it is y, and where x is zero it is z. */
  lemma FChooses(x: bv32, y: bv32, z: bv32)
    ensures F(x, y, z) & x == y & x && F(x, y, z) & !x == z & !x
  {
  }

  /** G is the majority, bit by bit: where two of the words agree it is what they are. */
  lemma GIsMajority(x: bv32, y: bv32, z: bv32)
    ensures (G(x, y, z) ^ x) & !(x ^ y) == 0 && (G(x, y, z) ^ x) & !(x ^ z) == 0 && (G(x, y, z) ^ y) & !(y ^ z) == 0
  {
  }

  /** H is the parity, bit by bit: where x and y agree it is z, and where they differ the opposite. */
  lemma HIsParity(x: bv32, y: bv32, z: bv32)
    ensures (H(x, y, z) ^ z) & !(x ^ y) == 0 && (H(x, y, z) ^ !z) & (x ^ y) == 0
  {
  }

  lemma OperationFF(a: bv32, b: bv32, c: bv32, d: bv32, x: bv32, s: nat)
    requires 0 < s < 32
    ensures FF(a, b, c, d, x, s) == RotateLeft(a + (F(b, c, d) + x), s)
  {
    hide F, G, H, RotateLeft;
  }

  lemma OperationGG(a: bv32, b: bv32, c: bv32, d: bv32, x: bv32, s: nat)
    requires 0 < s < 32
    ensures GG(a, b, c, d, x, s) == RotateLeft(a + (G(b, c, d) + x + 1518500249), s)
  {
    hide F, G, H, RotateLeft;
  }

  lemma OperationHH(a: bv32, b: bv32, c: bv32, d: bv32, x: bv32, s: nat)
    requires 0 < s < 32
    ensures HH(a, b, c, d, x, s) == RotateLeft(a + (H(b, c, d) + x + 1859775393), s)
  {
    hide F, G, H, RotateLeft;
  }

  /** The constants of rounds 2 and 3 are the square roots of 2 and 3 times 2^30, rounded down. */
  lemma Roots()
    ensures 1518500249 * 1518500249 <= 2 * 0x1000_0000_0000_0000 < 1518500250 * 1518500250
    ensures 1859775393 * 1859775393 <= 3 * 0x1000_0000_0000_0000 < 1859775394 * 1859775394
  {
  }

  // ---------------------------------------------------------------------------------------------
  // The running state

  /** Adding numbers of two words: the low words, and the high words with the carry. */
  lemma SumOfWords(a: nat, b: nat, carry: nat)
    requires carry == if a % TWO_32 + b % TWO_32 >= TWO_32 then 1 else 0
    ensures (a + b) % TWO_32 == a % TWO_32 + b % TWO_32 - TWO_32 * carry
    ensures (a + b) / TWO_32 == a / TWO_32 + b / TWO_32 + carry
  {
    var q := a / TWO_32 + b / TWO_32 + carry;
    assert a + b == TWO_32 * q + (a % TWO_32 + b % TWO_32 - TWO_32 * carry);
  }

  /** The code sees the carry in the sum of the low words being less than one of them. */
  lemma LowCarries(x: nat, y: nat, carry: nat)
    requires x < TWO_32 && y < TWO_32 && carry == if x + y >= TWO_32 then 1 else 0
    ensures (x + y) % TWO_32 == x + y - TWO_32 * carry
    ensures (x + y) % TWO_32 < y <==> carry == 1
  {
  }

  lemma SumModulo(x: nat, y: nat)
    ensures (x % TWO_32 + y) % TWO_32 == (x + y) % TWO_32
  {
    assert x == TWO_32 * (x / TWO_32) + x % TWO_32;
  }

  /** The count of bits, with the carry from the low to the high word. */
  lemma CountCarries(n: nat, length: nat, low: nat, high: nat)
    requires length < TWO_32
    requires var add := 8 * length % TWO_32;
      && low == (Low(8 * n) + add) % TWO_32
      && high == (High(8 * n) + (if low < add then 1 else 0) + length / 0x2000_0000) % TWO_32
    ensures low == Low(8 * (n + length)) && high == High(8 * (n + length))
  {
    var a, b := 8 * n, 8 * length;
    var carry := if a % TWO_32 + b % TWO_32 >= TWO_32 then 1 else 0;
    SumOfWords(a, b, carry);
    assert b / TWO_32 == length / 0x2000_0000;
    LowCarries(a % TWO_32, b % TWO_32, carry);
    SumModulo(a / TWO_32, b / TWO_32 + carry);
  }

  lemma EighthOf(n: nat, q: nat, low: nat)
    requires 8 * n == 0x1_0000_0000 * q + low
    ensures low / 8 % 64 == n % 64
  {
    var k := n - 0x2000_0000 * q;
    assert low == 8 * k;
    assert low / 8 == k && n == k + 64 * (0x80_0000 * q);
  }

  lemma IndexOfCount(n: nat)
    ensures Low(8 * n) / 8 % 64 == n % 64
  {
    var q, low := 8 * n / TWO_32, Low(8 * n);
    assert 8 * n == TWO_32 * q + low;
    EighthOf(n, q, low);
  }

  /** The code's two-way choice is the padding of section 3.1. */
  lemma PadLengthOfIndex(n: nat, index: nat, padLen: int)
    requires index < 64 && 64 * (n / 64) + index == n
    requires padLen == if index < 56 then 56 - index else 120 - index
    ensures padLen == PadLength(n) && 1 <= padLen <= 64 && padLen + 64 <= TWO_32
  {
    var p := PadLength(n);
    var q := (n + p) / 64;
    assert n + p == 64 * q + 56;
  }

  lemma PaddedIs(m: seq<byte>, all: seq<byte>, padLen: nat)
    requires padLen == PadLength(|m|)
    requires all == m + Padding(padLen) + (LittleEndian(Low(8 * |m|)) + LittleEndian(High(8 * |m|)))
    ensures all == Padded(m)
  {
  }

  lemma DigestIs(m: seq<byte>)
    ensures Digest(m) == WordBytes(Blocks(Padded(m), |Padded(m)| / 64))
  {
  }

  /** Whether the block counter of MD4_Update, which counts modulo 2^32, reaches the end of an input
      that comes when `index` bytes are buffered. */
  predicate CounterFits(index: nat, length: nat) {
    length < TWO_32 && (index == 0 || index + length < TWO_32)
  }

  /** The loop test passes at a counter behind which no whole block is left. */
  predicate ReadsBeyond(index: nat, length: nat, i: nat) {
    64 - index <= i <= length && (i + index) % 64 == 0 && (i + 63) % TWO_32 < length < i + 64
  }

  lemma CounterTest(index: nat, length: nat, i: nat)
    requires index < 64 && CounterFits(index, length) && 64 - index <= i <= length && (i + index) % 64 == 0
    ensures (i + 63) % TWO_32 < length <==> i + 63 < length
  {
    var k := (i + index) / 64;
    assert i + index == 64 * k;
  }

  /** The loop stays within the input exactly if the counter fits. If not, it reads behind the end and
      comes back to its first counter, so it never ends. */
  lemma CounterExact(index: nat, length: nat)
    requires index < 64 && length < TWO_32
    ensures CounterFits(index, length) <==> !exists i :: ReadsBeyond(index, length, i)
    ensures !CounterFits(index, length) ==>
      ReadsBeyond(index, length, TWO_32 - index) && (TWO_32 - index + 64) % TWO_32 == 64 - index
  {
    if CounterFits(index, length) {
      forall i | 64 - index <= i <= length && (i + index) % 64 == 0
        ensures !ReadsBeyond(index, length, i)
      {
        CounterTest(index, length, i);
      }
    } else {
      assert ReadsBeyond(index, length, TWO_32 - index);
    }
  }

  lemma ShortFits(index: nat, length: nat)
    requires index < 64 && length <= 64
    ensures CounterFits(index, length)
  {
  }

  lemma FitsWord(index: nat, length: nat)
    requires CounterFits(index, length)
    ensures length < TWO_32
  {
  }

  /** `MD4_CTX`. The ghost field is the message fed so far. */
  class Context {
    var state: Words
    var count0: nat
    var count1: nat
    const buffer: array<byte>
    ghost var message: seq<byte>

    ghost predicate Valid()
      reads this, buffer
    {
      && buffer.Length == 64
      && count0 == Low(8 * |message|) && count1 == High(8 * |message|)
      && state == Blocks(message, |message| / 64)
      && buffer[..|message| % 64] == message[64 * (|message| / 64)..]
    }

    /** MD4_Init. */
    constructor ()
      ensures Valid() && message == [] && fresh(buffer)
    {
      buffer := new byte[64];
      count0, count1 := 0, 0;
      state := START;
      message := [];
    }

    method CountBits(length: nat, ghost n: nat)
      requires length < TWO_32 && count0 == Low(8 * n) && count1 == High(8 * n)
      modifies this`count0, this`count1
      ensures count0 == Low(8 * (n + length)) && count1 == High(8 * (n + length))
    {
      ghost var high := count1;
      var add := 8 * length % TWO_32;
      count0 := (count0 + add) % TWO_32;
      if count0 < add {
        count1 := (count1 + 1) % TWO_32;
      }
      SumModulo(high + (if count0 < add then 1 else 0), length / 0x2000_0000);
      count1 := (count1 + length / 0x2000_0000) % TWO_32;
      CountCarries(n, length, count0, count1);
    }

    /** memcpy into the buffer. */
    method Fill(at: nat, bytes: seq<byte>)
      requires at + |bytes| <= buffer.Length
      modifies buffer
      ensures buffer[..] == old(buffer[..at]) + bytes + old(buffer[at + |bytes|..])
    {
      var i := 0;
      while i < |bytes|
        invariant 0 <= i <= |bytes|
        invariant forall j :: 0 <= j < i ==> buffer[at + j] == bytes[j]
        invariant forall j :: 0 <= j < at || at + i <= j < buffer.Length ==> buffer[j] == old(buffer[j])
      {
        buffer[at + i] := bytes[i];
        i := i + 1;
      }
      assert forall j :: at <= j < at + |bytes| ==> buffer[j] == bytes[j - at];
    }

    /** The index that MD4_Update computes from the count is the length of what the buffer holds. */
    lemma UpdateStarts(input: seq<byte>, k: nat)
      requires Valid() && k == |message| / 64
      ensures 72 <= TWO_32 && buffer.Length == 64 && count0 == Low(8 * |message|) && count1 == High(8 * |message|)
      ensures var index, all := count0 / 8 % 64, message + input;
        && 64 * k + index == |message| && input == all[64 * k + index..]
        && buffer[..index] == all[64 * k..64 * k + index] && state == Blocks(all, k)
    {
      hide Low, High, Compress;
      IndexOfCount(|message|);
      BlocksOfPrefix(message, input, k);
    }

    /** Buffering what does not fill a block. */
    method KeepRest(index: nat, rest: seq<byte>, ghost k: nat, ghost all: seq<byte>)
      requires buffer.Length == 64 && index + |rest| < 64 && |all| == 64 * k + index + |rest|
      requires buffer[..index] == all[64 * k..64 * k + index] && rest == all[64 * k + index..]
      modifies buffer
      ensures buffer[..|all| - 64 * k] == all[64 * k..]
    {
      Fill(index, rest);
      assert buffer[..|all| - 64 * k] == all[64 * k..64 * k + index] + rest;
    }

    /** Completing and transforming the block in the buffer. */
    method FirstBlock(index: nat, part: seq<byte>, ghost k: nat, ghost all: seq<byte>)
      requires buffer.Length == 64 && index + |part| == 64 && 64 * (k + 1) <= |all|
      requires buffer[..index] == all[64 * k..64 * k + index] && part == all[64 * k + index..64 * (k + 1)]
      requires state == Blocks(all, k)
      modifies this`state, buffer
      ensures state == Blocks(all, k + 1)
    {
      hide Compress;
      Fill(index, part);
      assert buffer[..] == all[64 * k..64 * (k + 1)];
      state := Transform(state, buffer[..]);
    }

    /** The loop of MD4_Update over the further whole blocks of the input. */
    method FurtherBlocks(index: nat, input: seq<byte>, ghost k: nat, ghost all: seq<byte>)
      returns (i: nat, ghost done: nat)
      requires index < 64 && CounterFits(index, |input|) && 64 - index <= |input| <= |all|
      requires all[|all| - |input|..] == input && 64 * k == |all| - |input| + 64 - index
      requires state == Blocks(all, k)
      modifies this`state
      ensures 64 - index <= i <= |input| < i + 64
      ensures 64 * done == |all| - |input| + i && state == Blocks(all, done)
    {
      hide Compress;
      i, done := 64 - index, k;
      CounterTest(index, |input|, i);
      while (i + 63) % TWO_32 < |input|
        invariant 64 - index <= i <= |input| && (i + index) % 64 == 0
        invariant (i + 63) % TWO_32 < |input| <==> i + 63 < |input|
        invariant 64 * done == |all| - |input| + i && state == Blocks(all, done)
      {
        assert input[i..i + 64] == all[64 * done..64 * (done + 1)];
        state := Transform(state, input[i..i + 64]);
        i := i + 64;
        done := done + 1;
        CounterTest(index, |input|, i);
      }
    }

    /** The part of MD4_Update that transforms and buffers. */
    method Absorb(index: nat, input: seq<byte>, ghost k: nat, ghost all: seq<byte>) returns (ghost done: nat)
      requires buffer.Length == 64 && index < 64 && CounterFits(index, |input|) && 64 * k + index + |input| == |all|
      requires buffer[..index] == all[64 * k..64 * k + index] && input == all[64 * k + index..]
      requires state == Blocks(all, k)
      modifies this`state, buffer
      ensures 64 * done <= |all| < 64 * done + 64 && state == Blocks(all, done)
      ensures buffer[..|all| - 64 * done] == all[64 * done..]
    {
      hide *;
      var partLen := 64 - index;
      if |input| >= partLen {
        assert input[..partLen] == all[64 * k + index..64 * (k + 1)];
        FirstBlock(index, input[..partLen], k, all);
        assert all[|all| - |input|..] == input;
        var i;
        i, done := FurtherBlocks(index, input, k + 1, all);
        assert input[i..] == all[64 * done..];
        KeepRest(0, input[i..], done, all);
      } else {
        done := k;
        KeepRest(index, input, done, all);
      }
    }

    lemma NowValid(k: nat)
      requires buffer.Length == 64 && count0 == Low(8 * |message|) && count1 == High(8 * |message|)
      requires 64 * k <= |message| < 64 * k + 64 && state == Blocks(message, k)
      requires buffer[..|message| - 64 * k] == message[64 * k..]
      ensures Valid()
    {
      assert |message| / 64 == k && |message| % 64 == |message| - 64 * k;
    }

    /** MD4_Update. Without the condition its loop never ends (CounterExact). */
    method Update(input: seq<byte>)
      requires Valid() && CounterFits(|message| % 64, |input|)
      modifies this, buffer
      ensures Valid() && message == old(message) + input
    {
      hide *;
      ghost var k: nat := |message| / 64;
      ghost var all := message + input;
      UpdateStarts(input, k);
      var index := count0 / 8 % 64;
      assert index == |message| % 64;
      FitsWord(index, |input|);
      CountBits(|input|, |message|);
      k := Absorb(index, input, k, all);
      message := all;
      NowValid(k);
    }

    /** The part of MD4_Final that pads the message and appends its length. */
    method Pad()
      requires Valid()
      modifies this, buffer
      ensures Valid() && message == Padded(old(message))
    {
      hide *;
      ghost var m := message;
      UpdateStarts([], |m| / 64);
      var bits := LittleEndian(count0) + LittleEndian(count1);
      var index := count0 / 8 % 64;
      var padLen := if index < 56 then 56 - index else 120 - index;
      PadLengthOfIndex(|m|, index, padLen);
      ShortFits(|m| % 64, padLen);
      Update(Padding(padLen));
      ShortFits(|message| % 64, 8);
      Update(bits);
      PaddedIs(m, message, padLen);
    }

    lemma FullState(m: seq<byte>)
      requires Valid() && message == m
      ensures state == Blocks(m, |m| / 64)
    {
    }

    method Clear()
      modifies buffer
      ensures forall i :: 0 <= i < buffer.Length ==> buffer[i] == 0
    {
      for i := 0 to buffer.Length
        invariant forall j :: 0 <= j < i ==> buffer[j] == 0
      {
        buffer[i] := 0;
      }
    }

    /** MD4_Final. The context is cleared afterwards. */
    method Final() returns (digest: seq<byte>)
      requires Valid()
      modifies this, buffer
      ensures digest == Digest(old(message))
      ensures state == Words(0, 0, 0, 0) && count0 == count1 == 0
      ensures forall i :: 0 <= i < buffer.Length ==> buffer[i] == 0
    {
      hide *;
      ghost var m := message;
      Pad();
      FullState(Padded(m));
      digest := WordBytes(state);
      DigestIs(m);
      state := Words(0, 0, 0, 0);
      count0, count1 := 0, 0;
      Clear();
    }
  }

  function Concat(chunks: seq<seq<byte>>): seq<byte> {
    if chunks == [] then [] else Concat(chunks[..|chunks| - 1]) + chunks[|chunks| - 1]
  }

  lemma NoChunks(chunks: seq<seq<byte>>)
    ensures Concat(chunks[..0]) == [] && chunks[..|chunks|] == chunks
  {
  }

  lemma ChunkMore(chunks: seq<seq<byte>>, i: nat)
    requires i < |chunks|
    ensures Concat(chunks[..i + 1]) == Concat(chunks[..i]) + chunks[i]
  {
    assert chunks[..i + 1][..i] == chunks[..i];
  }

  /** Feeding a message in any split gives the digest of the whole message. */
  method DigestOfChunks(chunks: seq<seq<byte>>) returns (digest: seq<byte>)
    requires forall i :: 0 <= i < |chunks| ==> CounterFits(|Concat(chunks[..i])| % 64, |chunks[i]|)
    ensures digest == Digest(Concat(chunks))
  {
    hide *;
    var context := new Context();
    var i := 0;
    NoChunks(chunks);
    while i < |chunks|
      invariant 0 <= i <= |chunks| && context.Valid() && context.message == Concat(chunks[..i])
      invariant fresh(context) && fresh(context.buffer)
    {
      context.Update(chunks[i]);
      ChunkMore(chunks, i);
      i := i + 1;
    }
    digest := context.Final();
  }

  lemma OneChunk(bytes: seq<byte>)
    ensures Concat([bytes]) == bytes && Concat([bytes][..0]) == []
    ensures |bytes| < TWO_32 ==> CounterFits(0, |bytes|)
  {
    assert [bytes][..0] == [];
    assert [] + bytes == bytes;
  }

  function WordOf(s: seq<byte>, at: nat): bv32
    requires at + 4 <= |s|
  {
    ReadLittleEndian(s, at) as bv32
  }

  lemma WordBack(before: seq<byte>, w: bv32, after: seq<byte>)
    ensures WordOf(before + LittleEndian(w as nat) + after, |before|) == w
  {
    ReadBack(before, w as nat, after);
  }

  lemma WordsBack(w: Words)
    ensures WordOf(WordBytes(w), 0) == w.a && WordOf(WordBytes(w), 4) == w.b
    ensures WordOf(WordBytes(w), 8) == w.c && WordOf(WordBytes(w), 12) == w.d
  {
    hide WordOf, LittleEndian;
    var a, b := LittleEndian(w.a as nat), LittleEndian(w.b as nat);
    var c, d := LittleEndian(w.c as nat), LittleEndian(w.d as nat);
    var r := WordBytes(w);
    assert r == [] + a + (b + c + d) && r == a + b + (c + d) && r == (a + b) + c + d && r == (a + b + c) + d + [];
    WordBack([], w.a, b + c + d);
    WordBack(a, w.b, c + d);
    WordBack(a + b, w.c, d);
    WordBack(a + b + c, w.d, []);
  }

  /** Com_BlockChecksum: the four words of the digest combined. */
  method BlockChecksum(bytes: seq<byte>) returns (val: bv32)
    requires |bytes| < TWO_32
    ensures var w := Blocks(Padded(bytes), |Padded(bytes)| / 64); val == w.a ^ w.b ^ w.c ^ w.d
  {
    hide *;
    OneChunk(bytes);
    var digest := DigestOfChunks([bytes]);
    DigestIs(bytes);
    ghost var w := Blocks(Padded(bytes), |Padded(bytes)| / 64);
    WordsBack(w);
    val := WordOf(digest, 0) ^ WordOf(digest, 4) ^ WordOf(digest, 8) ^ WordOf(digest, 12);
  }
}
