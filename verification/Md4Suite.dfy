/** An entry of the test suite in section A.5 of RFC 1320: the digest of "abc", operation by operation. */
module Md4Suite {
  import opened Bytes
  import opened Md4

  /** The words of the block: the three bytes and 0x80, zeros, and the 24 bits of length. */
  predicate IsAbc(x: seq<bv32>) {
    |x| == 16 && x[0] == 0x80636261 && x[14] == 24 && forall i :: 1 <= i < 16 && i != 14 ==> x[i] == 0
  }

  lemma AbcAt(x: seq<bv32>, k: nat)
    requires IsAbc(x) && k < 16
    ensures |x| == 16 && x[k] == if k == 0 then 0x80636261 else if k == 14 then 24 else 0
  {
  }

  lemma Words4(x: seq<bv32>)
    requires IsAbc(x)
    ensures Rounds(4, START, x) == Words(0x031b1304, 0xf66d8f45, 0xd38454e4, 0xee123855)
  {
    NoRounds(START, x);
    Ops1();
    AbcAt(x, 0);
    AbcAt(x, 1);
    AbcAt(x, 2);
    AbcAt(x, 3);
    hide Rounds, OpAt, IsAbc;
    assert FF(0x67452301, 0xefcdab89, 0x98badcfe, 0x10325476, 0x80636261, 3) == 0x031b1304;
    assert FF(0x10325476, 0x031b1304, 0xefcdab89, 0x98badcfe, 0, 7) == 0xee123855;
    assert FF(0x98badcfe, 0xee123855, 0x031b1304, 0xefcdab89, 0, 11) == 0xd38454e4;
    assert FF(0xefcdab89, 0xd38454e4, 0xee123855, 0x031b1304, 0, 19) == 0xf66d8f45;
    FourFF(0, START, x, 0, 1, 2, 3);
  }

  lemma Words8(x: seq<bv32>)
    requires IsAbc(x)
    ensures Rounds(8, START, x) == Words(0xe98a3ac6, 0x613b2bc8, 0x97854e65, 0x0f435cf0)
  {
    Words4(x);
    Ops1();
    AbcAt(x, 4);
    AbcAt(x, 5);
    AbcAt(x, 6);
    AbcAt(x, 7);
    hide Rounds, OpAt, IsAbc;
    assert FF(0x031b1304, 0xf66d8f45, 0xd38454e4, 0xee123855, 0, 3) == 0xe98a3ac6;
    assert FF(0xee123855, 0xe98a3ac6, 0xf66d8f45, 0xd38454e4, 0, 7) == 0x0f435cf0;
    assert FF(0xd38454e4, 0x0f435cf0, 0xe98a3ac6, 0xf66d8f45, 0, 11) == 0x97854e65;
    assert FF(0xf66d8f45, 0x97854e65, 0x0f435cf0, 0xe98a3ac6, 0, 19) == 0x613b2bc8;
    FourFF(4, START, x, 4, 5, 6, 7);
  }

  lemma Words12(x: seq<bv32>)
    requires IsAbc(x)
    ensures Rounds(12, START, x) == Words(0xc65cc9b7, 0xa7d13acb, 0x15d2eef5, 0x6e365830)
  {
    Words8(x);
    Ops1();
    AbcAt(x, 8);
    AbcAt(x, 9);
    AbcAt(x, 10);
    AbcAt(x, 11);
    hide Rounds, OpAt, IsAbc;
    assert FF(0xe98a3ac6, 0x613b2bc8, 0x97854e65, 0x0f435cf0, 0, 3) == 0xc65cc9b7;
    assert FF(0x0f435cf0, 0xc65cc9b7, 0x613b2bc8, 0x97854e65, 0, 7) == 0x6e365830;
    assert FF(0x97854e65, 0x6e365830, 0xc65cc9b7, 0x613b2bc8, 0, 11) == 0x15d2eef5;
    assert FF(0x613b2bc8, 0x15d2eef5, 0x6e365830, 0xc65cc9b7, 0, 19) == 0xa7d13acb;
    FourFF(8, START, x, 8, 9, 10, 11);
  }

  lemma Words16(x: seq<bv32>)
    requires IsAbc(x)
    ensures Rounds(16, START, x) == Words(0xa299a540, 0xda717395, 0x24baadcb, 0x04e19293)
  {
    Words12(x);
    Ops1();
    AbcAt(x, 12);
    AbcAt(x, 13);
    AbcAt(x, 14);
    AbcAt(x, 15);
    hide Rounds, OpAt, IsAbc;
    assert FF(0xc65cc9b7, 0xa7d13acb, 0x15d2eef5, 0x6e365830, 0, 3) == 0xa299a540;
    assert FF(0x6e365830, 0xa299a540, 0xa7d13acb, 0x15d2eef5, 0, 7) == 0x04e19293;
    assert FF(0x15d2eef5, 0x04e19293, 0xa299a540, 0xa7d13acb, 24, 11) == 0x24baadcb;
    assert FF(0xa7d13acb, 0x24baadcb, 0x04e19293, 0xa299a540, 0, 19) == 0xda717395;
    FourFF(12, START, x, 12, 13, 14, 15);
  }

  lemma Words20(x: seq<bv32>)
    requires IsAbc(x)
    ensures Rounds(20, START, x) == Words(0x1389a66c, 0x228b5116, 0xdd3d21a5, 0x43b67f2e)
  {
    Words16(x);
    Ops2();
    AbcAt(x, 0);
    AbcAt(x, 4);
    AbcAt(x, 8);
    AbcAt(x, 12);
    hide Rounds, OpAt, IsAbc;
    assert GG(0xa299a540, 0xda717395, 0x24baadcb, 0x04e19293, 0x80636261, 3) == 0x1389a66c;
    assert GG(0x04e19293, 0x1389a66c, 0xda717395, 0x24baadcb, 0, 5) == 0x43b67f2e;
    assert GG(0x24baadcb, 0x43b67f2e, 0x1389a66c, 0xda717395, 0, 9) == 0xdd3d21a5;
    assert GG(0xda717395, 0xdd3d21a5, 0x43b67f2e, 0x1389a66c, 0, 13) == 0x228b5116;
    FourGG(16, START, x, 0, 4, 8, 12);
  }

  lemma Words24(x: seq<bv32>)
    requires IsAbc(x)
    ensures Rounds(24, START, x) == Words(0x8e5c895d, 0x4ec68171, 0xbd68a784, 0x8abf3b85)
  {
    Words20(x);
    Ops2();
    AbcAt(x, 1);
    AbcAt(x, 5);
    AbcAt(x, 9);
    AbcAt(x, 13);
    hide Rounds, OpAt, IsAbc;
    assert GG(0x1389a66c, 0x228b5116, 0xdd3d21a5, 0x43b67f2e, 0, 3) == 0x8e5c895d;
    assert GG(0x43b67f2e, 0x8e5c895d, 0x228b5116, 0xdd3d21a5, 0, 5) == 0x8abf3b85;
    assert GG(0xdd3d21a5, 0x8abf3b85, 0x8e5c895d, 0x228b5116, 0, 9) == 0xbd68a784;
    assert GG(0x228b5116, 0xbd68a784, 0x8abf3b85, 0x8e5c895d, 0, 13) == 0x4ec68171;
    FourGG(20, START, x, 1, 5, 9, 13);
  }

  lemma Words28(x: seq<bv32>)
    requires IsAbc(x)
    ensures Rounds(28, START, x) == Words(0xbe6d33db, 0x0323e3b7, 0x74661d2d, 0x75cb1df4)
  {
    Words24(x);
    Ops2();
    AbcAt(x, 2);
    AbcAt(x, 6);
    AbcAt(x, 10);
    AbcAt(x, 14);
    hide Rounds, OpAt, IsAbc;
    assert GG(0x8e5c895d, 0x4ec68171, 0xbd68a784, 0x8abf3b85, 0, 3) == 0xbe6d33db;
    assert GG(0x8abf3b85, 0xbe6d33db, 0x4ec68171, 0xbd68a784, 0, 5) == 0x75cb1df4;
    assert GG(0xbd68a784, 0x75cb1df4, 0xbe6d33db, 0x4ec68171, 0, 9) == 0x74661d2d;
    assert GG(0x4ec68171, 0x74661d2d, 0x75cb1df4, 0xbe6d33db, 24, 13) == 0x0323e3b7;
    FourGG(24, START, x, 2, 6, 10, 14);
  }

  lemma Words32(x: seq<bv32>)
    requires IsAbc(x)
    ensures Rounds(32, START, x) == Words(0x7296594c, 0x8e531b8f, 0x3dd42422, 0x4e7e1748)
  {
    Words28(x);
    Ops2();
    AbcAt(x, 3);
    AbcAt(x, 7);
    AbcAt(x, 11);
    AbcAt(x, 15);
    hide Rounds, OpAt, IsAbc;
    assert GG(0xbe6d33db, 0x0323e3b7, 0x74661d2d, 0x75cb1df4, 0, 3) == 0x7296594c;
    assert GG(0x75cb1df4, 0x7296594c, 0x0323e3b7, 0x74661d2d, 0, 5) == 0x4e7e1748;
    assert GG(0x74661d2d, 0x4e7e1748, 0x7296594c, 0x0323e3b7, 0, 9) == 0x3dd42422;
    assert GG(0x0323e3b7, 0x3dd42422, 0x4e7e1748, 0x7296594c, 0, 13) == 0x8e531b8f;
    FourGG(28, START, x, 3, 7, 11, 15);
  }

  lemma Words36(x: seq<bv32>)
    requires IsAbc(x)
    ensures Rounds(36, START, x) == Words(0xfe66819a, 0xfd9fcfeb, 0x2f4e3583, 0x73824016)
  {
    Words32(x);
    Ops3();
    AbcAt(x, 0);
    AbcAt(x, 8);
    AbcAt(x, 4);
    AbcAt(x, 12);
    hide Rounds, OpAt, IsAbc;
    assert HH(0x7296594c, 0x8e531b8f, 0x3dd42422, 0x4e7e1748, 0x80636261, 3) == 0xfe66819a;
    assert HH(0x4e7e1748, 0xfe66819a, 0x8e531b8f, 0x3dd42422, 0, 9) == 0x73824016;
    assert HH(0x3dd42422, 0x73824016, 0xfe66819a, 0x8e531b8f, 0, 11) == 0x2f4e3583;
    assert HH(0x8e531b8f, 0x2f4e3583, 0x73824016, 0xfe66819a, 0, 15) == 0xfd9fcfeb;
    FourHH(32, START, x, 0, 8, 4, 12);
  }

  lemma Words40(x: seq<bv32>)
    requires IsAbc(x)
    ensures Rounds(40, START, x) == Words(0x74a13dc8, 0x71a2ad97, 0x03f2b578, 0x99e6af11)
  {
    Words36(x);
    Ops3();
    AbcAt(x, 2);
    AbcAt(x, 10);
    AbcAt(x, 6);
    AbcAt(x, 14);
    hide Rounds, OpAt, IsAbc;
    assert HH(0xfe66819a, 0xfd9fcfeb, 0x2f4e3583, 0x73824016, 0, 3) == 0x74a13dc8;
    assert HH(0x73824016, 0x74a13dc8, 0xfd9fcfeb, 0x2f4e3583, 0, 9) == 0x99e6af11;
    assert HH(0x2f4e3583, 0x99e6af11, 0x74a13dc8, 0xfd9fcfeb, 0, 11) == 0x03f2b578;
    assert HH(0xfd9fcfeb, 0x03f2b578, 0x99e6af11, 0x74a13dc8, 24, 15) == 0x71a2ad97;
    FourHH(36, START, x, 2, 10, 6, 14);
  }

  lemma Words44(x: seq<bv32>)
    requires IsAbc(x)
    ensures Rounds(44, START, x) == Words(0x798f0b3e, 0xacbf46ad, 0xea0ccd51, 0x3f5d0629)
  {
    Words40(x);
    Ops3();
    AbcAt(x, 1);
    AbcAt(x, 9);
    AbcAt(x, 5);
    AbcAt(x, 13);
    hide Rounds, OpAt, IsAbc;
    assert HH(0x74a13dc8, 0x71a2ad97, 0x03f2b578, 0x99e6af11, 0, 3) == 0x798f0b3e;
    assert HH(0x99e6af11, 0x798f0b3e, 0x71a2ad97, 0x03f2b578, 0, 9) == 0x3f5d0629;
    assert HH(0x03f2b578, 0x3f5d0629, 0x798f0b3e, 0x71a2ad97, 0, 11) == 0xea0ccd51;
    assert HH(0x71a2ad97, 0xea0ccd51, 0x3f5d0629, 0x798f0b3e, 0, 15) == 0xacbf46ad;
    FourHH(40, START, x, 1, 9, 5, 13);
  }

  lemma Words48(x: seq<bv32>)
    requires IsAbc(x)
    ensures Rounds(48, START, x) == Words(0x12bc25a3, 0x630a7626, 0x4f4fe461, 0x8d405204)
  {
    Words44(x);
    Ops3();
    AbcAt(x, 3);
    AbcAt(x, 11);
    AbcAt(x, 7);
    AbcAt(x, 15);
    hide Rounds, OpAt, IsAbc;
    assert HH(0x798f0b3e, 0xacbf46ad, 0xea0ccd51, 0x3f5d0629, 0, 3) == 0x12bc25a3;
    assert HH(0x3f5d0629, 0x12bc25a3, 0xacbf46ad, 0xea0ccd51, 0, 9) == 0x8d405204;
    assert HH(0xea0ccd51, 0x8d405204, 0x12bc25a3, 0xacbf46ad, 0, 11) == 0x4f4fe461;
    assert HH(0xacbf46ad, 0x4f4fe461, 0x8d405204, 0x12bc25a3, 0, 15) == 0x630a7626;
    FourHH(44, START, x, 3, 11, 7, 15);
  }

  const ABC: seq<byte> := [97, 98, 99]

  lemma AbcPadded(i: nat)
    requires i < 64
    ensures |Padded(ABC)| == 64
    ensures Padded(ABC)[i] ==
      if i == 0 then 97 else if i == 1 then 98 else if i == 2 then 99
      else if i == 3 then 0x80 else if i == 56 then 24 else 0
  {
    assert PadLength(3) == 53;
    assert Low(24) == 24 && High(24) == 0;
    assert LittleEndian(24) == [24, 0, 0, 0] && LittleEndian(0) == [0, 0, 0, 0];
    assert Padding(53)[0] == 0x80 && forall j :: 1 <= j < 53 ==> Padding(53)[j] == 0;
    hide LittleEndian, PadLength, Padding, Low, High;
    var bits: seq<byte> := [24, 0, 0, 0] + [0, 0, 0, 0];
    assert Padded(ABC) == ABC + Padding(53) + bits;
    if i < 3 {
      assert Padded(ABC)[i] == ABC[i];
    } else if i < 56 {
      assert Padded(ABC)[i] == Padding(53)[i - 3];
    } else {
      assert Padded(ABC)[i] == bits[i - 56];
    }
  }

  lemma AbcWord(i: nat)
    requires i < 16
    ensures |Padded(ABC)| == 64
    ensures ReadLittleEndian(Padded(ABC), 4 * i) == if i == 0 then 0x80636261 else if i == 14 then 24 else 0
  {
    AbcPadded(4 * i);
    AbcPadded(4 * i + 1);
    AbcPadded(4 * i + 2);
    AbcPadded(4 * i + 3);
    hide Padded;
  }

  lemma AbcWordAt(i: nat)
    requires i < 16
    ensures |Padded(ABC)| == 64
    ensures BlockWords(Padded(ABC))[i] == if i == 0 then 0x80636261 else if i == 14 then 24 else 0
  {
    AbcWord(i);
    hide Padded, ReadLittleEndian;
  }

  lemma AbcBlock(x: seq<bv32>)
    requires |Padded(ABC)| == 64 && x == BlockWords(Padded(ABC))
    ensures IsAbc(x)
  {
    hide Padded, BlockWords;
    forall i: nat | i < 16
      ensures x[i] == if i == 0 then 0x80636261 else if i == 14 then 24 else 0
    {
      AbcWordAt(i);
    }
  }

  lemma AbcIs()
    ensures ABC == [97, 98, 99]
  {
  }

  lemma AbcSum()
    ensures Sum(START, Words(0x12bc25a3, 0x630a7626, 0x4f4fe461, 0x8d405204)) ==
      Words(0x7a0148a4, 0x52d821af, 0xe80ac15f, 0x9d72a67a)
  {
  }

  lemma AbcBytes()
    ensures WordBytes(Words(0x7a0148a4, 0x52d821af, 0xe80ac15f, 0x9d72a67a)) ==
      [0xa4, 0x48, 0x01, 0x7a, 0xaf, 0x21, 0xd8, 0x52, 0x5f, 0xc1, 0x0a, 0xe8, 0x7a, 0xa6, 0x72, 0x9d]
  {
  }

  lemma OneBlock(p: seq<byte>)
    requires |p| == 64
    ensures Blocks(p, 1) == Sum(START, Rounds(48, START, BlockWords(p)))
  {
    assert p[0..64] == p && Blocks(p, 0) == START;
    hide Rounds, BlockWords, Sum;
  }

  lemma AbcDigest()
    ensures Digest([97, 98, 99]) ==
      [0xa4, 0x48, 0x01, 0x7a, 0xaf, 0x21, 0xd8, 0x52, 0x5f, 0xc1, 0x0a, 0xe8, 0x7a, 0xa6, 0x72, 0x9d]
  {
    hide *;
    AbcPadded(0);
    DigestIs(ABC);
    OneBlock(Padded(ABC));
    AbcBlock(BlockWords(Padded(ABC)));
    Words48(BlockWords(Padded(ABC)));
    AbcSum();
    AbcBytes();
    AbcIs();
  }
}
