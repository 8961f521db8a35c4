/** Bytes and the fixed-width integers that the C code reads and writes byte by byte. */
module Bytes {
  newtype byte = x: int | 0 <= x < 256

  const TWO_31: int := 0x8000_0000
  const TWO_32: int := 0x1_0000_0000

  /** The four bytes of a 32-bit word, least significant first. */
  function LittleEndian(w: nat): (r: seq<byte>)
    requires w < TWO_32
    ensures |r| == 4
  {
    [(w % 256) as byte, (w / 256 % 256) as byte, (w / 65536 % 256) as byte, (w / 16777216) as byte]
  }

  /** The word held in four consecutive bytes, least significant first. */
  function ReadLittleEndian(s: seq<byte>, at: nat): (w: nat)
    requires at + 4 <= |s|
    ensures w < TWO_32
  {
    s[at] as nat + 256 * (s[at + 1] as nat) + 65536 * (s[at + 2] as nat) + 16777216 * (s[at + 3] as nat)
  }

  lemma LittleEndianRoundTrip(w: nat)
    requires w < TWO_32
    ensures ReadLittleEndian(LittleEndian(w), 0) == w
  {
    var q := w / 256;
    assert w / 65536 == q / 256;
    assert w / 16777216 == q / 65536;
  }

  /** Reading a word back from where it was written, with other bytes around it. */
  lemma ReadBack(before: seq<byte>, w: nat, after: seq<byte>)
    requires w < TWO_32
    ensures ReadLittleEndian(before + LittleEndian(w) + after, |before|) == w
  {
    LittleEndianRoundTrip(w);
    var s := before + LittleEndian(w) + after;
    assert forall i :: 0 <= i < 4 ==> s[|before| + i] == LittleEndian(w)[i];
  }

  /** Any number of bytes as a number, most significant first. */
  function Number(s: seq<byte>): nat {
    if s == [] then 0 else Number(s[..|s| - 1]) * 256 + s[|s| - 1] as nat
  }

  lemma NumberStep(s: seq<byte>, last: byte)
    ensures Number(s + [last]) == Number(s) * 256 + last as nat
  {
    assert (s + [last])[..|s|] == s;
  }

  lemma NumberOfThree(a: byte, b: byte, c: byte)
    ensures Number([a, b]) == a as nat * 256 + b as nat
    ensures Number([a, b, c]) == a as nat * 65536 + b as nat * 256 + c as nat
  {
    NumberStep([], a);
    NumberStep([a], b);
    NumberStep([a, b], c);
    assert Number([]) == 0;
    hide Number;
    assert [] + [a] == [a] && [a] + [b] == [a, b] && [a, b] + [c] == [a, b, c];
  }

  lemma NumberOfFour(a: byte, b: byte, c: byte, d: byte)
    ensures Number([a, b, c, d]) == a as nat * 16777216 + b as nat * 65536 + c as nat * 256 + d as nat
  {
    NumberOfThree(a, b, c);
    NumberStep([a, b, c], d);
    hide Number;
    assert [a, b, c] + [d] == [a, b, c, d];
  }

  /** The last of the four bytes weighs most. */
  lemma LittleEndianNumber(s: seq<byte>, at: nat)
    requires at + 4 <= |s|
    ensures ReadLittleEndian(s, at) == Number([s[at + 3], s[at + 2], s[at + 1], s[at]])
  {
    NumberOfFour(s[at + 3], s[at + 2], s[at + 1], s[at]);
  }
}
