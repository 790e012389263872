/** Bytes, 32-bit words and the big-endian encoding shared by firmware and client. */
module Bytes {

  type byte = x: int | 0 <= x < 0x100

  type u32 = x: int | 0 <= x < 0x1_0000_0000

  /** The four bytes of a word, most significant first (`struct.pack('>I', n)`). */
  function BigEndian(n: u32): (s: seq<byte>)
    ensures |s| == 4
  {
    [n / 0x100 / 0x100 / 0x100, n / 0x100 / 0x100 % 0x100, n / 0x100 % 0x100, n % 0x100]
  }

  lemma BigEndianDigits(n: u32)
    ensures BigEndian(n) == [n / 0x100_0000, n / 0x1_0000 % 0x100, n / 0x100 % 0x100, n % 0x100]
  {
    assert n / 0x100 / 0x100 == n / 0x1_0000;
    assert n / 0x1_0000 / 0x100 == n / 0x100_0000;
  }

  /** The word with these four bytes, most significant first. */
  function FromBytes(b3: byte, b2: byte, b1: byte, b0: byte): u32 {
    Push(Push(Push(b3, b2), b1), b0)
  }

  function Push(n: nat, b: byte): nat {
    n * 0x100 + b
  }

  /** `acc << 8 | b` on a 32-bit word: the oldest byte of `acc` falls out. */
  function ShiftIn(acc: u32, b: byte): u32 {
    Push(acc % 0x100_0000, b)
  }

  function ShiftInAll(acc: u32, s: seq<byte>): u32 {
    if s == [] then acc else ShiftIn(ShiftInAll(acc, s[..|s| - 1]), s[|s| - 1])
  }

  lemma PushSplits(n: nat, b: byte)
    ensures Push(n, b) / 0x100 == n && Push(n, b) % 0x100 == b
  {
  }

  lemma ShiftInMod8(acc: u32, b: byte)
    ensures ShiftIn(acc, b) % 0x100 == b
  {
    PushSplits(acc % 0x100_0000, b);
  }

  lemma ShiftInMod16(acc: u32, b: byte)
    ensures ShiftIn(acc, b) % 0x1_0000 == Push(acc % 0x100, b)
  {
    var q, r := acc % 0x100_0000 / 0x100, acc % 0x100;
    assert ShiftIn(acc, b) == q * 0x1_0000 + Push(r, b);
  }

  lemma ShiftInMod24(acc: u32, b: byte)
    ensures ShiftIn(acc, b) % 0x100_0000 == Push(acc % 0x1_0000, b)
  {
    var q, r := acc % 0x100_0000 / 0x1_0000, acc % 0x1_0000;
    assert ShiftIn(acc, b) == q * 0x100_0000 + Push(r, b);
  }

  /** Four shifts replace a word completely, whatever it held before. */
  lemma ShiftInFour(acc: u32, s: seq<byte>)
    requires |s| == 4
    ensures ShiftInAll(acc, s) == FromBytes(s[0], s[1], s[2], s[3])
  {
    var s3, s2, s1 := s[..3], s[..2], s[..1];
    assert s3[..2] == s2 && s2[..1] == s1 && s1[..0] == [];
    assert ShiftInAll(acc, s1) == ShiftIn(acc, s[0]);
    assert ShiftInAll(acc, s2) == ShiftIn(ShiftIn(acc, s[0]), s[1]);
    assert ShiftInAll(acc, s3) == ShiftIn(ShiftIn(ShiftIn(acc, s[0]), s[1]), s[2]);
    FourShifts(acc, s[0], s[1], s[2], s[3]);
  }

  lemma FourShifts(acc: u32, b3: byte, b2: byte, b1: byte, b0: byte)
    ensures ShiftIn(ShiftIn(ShiftIn(ShiftIn(acc, b3), b2), b1), b0) == FromBytes(b3, b2, b1, b0)
  {
    var a1 := ShiftIn(acc, b3);
    var a2 := ShiftIn(a1, b2);
    ShiftInMod8(acc, b3);
    ShiftInMod16(a1, b2);
    ShiftInMod24(a2, b1);
  }

  lemma BigEndianFromBytes(b3: byte, b2: byte, b1: byte, b0: byte)
    ensures BigEndian(FromBytes(b3, b2, b1, b0)) == [b3, b2, b1, b0]
  {
    PushSplits(Push(Push(b3, b2), b1), b0);
    PushSplits(Push(b3, b2), b1);
    PushSplits(b3, b2);
  }

  lemma FromBigEndian(n: u32)
    ensures
      var s := BigEndian(n);
      FromBytes(s[0], s[1], s[2], s[3]) == n
  {
  }

  /** Shifting in an encoded word yields the word, whatever was there before. */
  lemma ShiftInBigEndian(acc: u32, n: u32)
    ensures ShiftInAll(acc, BigEndian(n)) == n
  {
    ShiftInFour(acc, BigEndian(n));
  }

  /** Four bytes are the encoding of the word obtained by shifting them in. */
  lemma BigEndianShiftIn(acc: u32, s: seq<byte>)
    requires |s| == 4
    ensures BigEndian(ShiftInAll(acc, s)) == s
  {
    ShiftInFour(acc, s);
    BigEndianFromBytes(s[0], s[1], s[2], s[3]);
  }
}
