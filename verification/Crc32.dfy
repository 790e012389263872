/** The CRC-32 of RFC 1952, section 8, bit by bit over an explicit 32-bit register. */
module Crc32 {
  import opened Bytes

  /** Thirty-two bits, least significant first. */
  type Register = r: seq<bool> | |r| == 32 witness seq(32, _ => false)

  /** The `k` low bits of `n`, least significant first. */
  function Bits(n: nat, k: nat): (s: seq<bool>)
    ensures |s| == k
  {
    if k == 0 then [] else [n % 2 == 1] + Bits(n / 2, k - 1)
  }

  function Pow2(k: nat): (p: nat)
    ensures p > 0
  {
    if k == 0 then 1 else 2 * Pow2(k - 1)
  }

  /** The number whose bits are `s`. */
  function Value(s: seq<bool>): (n: nat)
    ensures n < Pow2(|s|)
  {
    if s == [] then 0 else (if s[0] then 1 else 0) + 2 * Value(s[1..])
  }

  lemma {:induction false} ValueBits(n: nat, k: nat)
    requires n < Pow2(k)
    ensures Value(Bits(n, k)) == n
  {
    if k > 0 {
      assert Bits(n, k)[1..] == Bits(n / 2, k - 1);
      ValueBits(n / 2, k - 1);
    }
  }

  lemma {:induction false} BitsValue(s: seq<bool>)
    ensures Bits(Value(s), |s|) == s
  {
    if s != [] {
      BitsValue(s[1..]);
    }
  }

  lemma Pow2Word()
    ensures Pow2(8) == 0x100 && Pow2(32) == 0x1_0000_0000
  {
    assert Pow2(8) == 256;
    assert Pow2(16) == Pow2(8) * 256;
    assert Pow2(24) == Pow2(16) * 256;
    assert Pow2(32) == Pow2(24) * 256;
  }

  /** Whether the generator polynomial has a term of this degree (besides x^32). */
  predicate HasTerm(degree: nat) {
    degree == 26 || degree == 23 || degree == 22 || degree == 16 || 10 <= degree <= 12 || degree == 8 || degree == 7
    || degree == 5 || degree == 4 || degree <= 2
  }

  /** The reflected polynomial, 0xEDB88320: the coefficient of x^d stands at position 31 - d. */
  const POLYNOMIAL: Register := seq(32, i requires 0 <= i < 32 => HasTerm(31 - i))

  /** One step of the register: shift right, and subtract the polynomial if a one falls out. */
  function Shift(r: Register): Register {
    seq(32, i requires 0 <= i < 32 => (i < 31 && r[i + 1]) != (r[0] && POLYNOMIAL[i]))
  }

  function Enter(r: Register, bit: bool): Register {
    Shift(r[0 := r[0] != bit])
  }

  lemma EnterBit(r: Register, bit: bool, i: nat)
    requires i < 32
    ensures Enter(r, bit)[i] == ((i < 31 && r[i + 1]) != ((r[0] != bit) && HasTerm(31 - i)))
  {
  }

  function Feed(r: Register, bits: seq<bool>): Register {
    if bits == [] then r else Enter(Feed(r, bits[..|bits| - 1]), bits[|bits| - 1])
  }

  /** The bits of a byte string in transmission order: least significant bit of each byte first. */
  function BitsOf(s: seq<byte>): (bits: seq<bool>)
    ensures |bits| == 8 * |s|
  {
    if s == [] then [] else Bits(s[0], 8) + BitsOf(s[1..])
  }

  function Complement(r: Register): Register {
    seq(32, i requires 0 <= i < 32 => !r[i])
  }

  function Word(r: Register): u32 {
    Pow2Word();
    Value(r)
  }

  /** `crc32(crc, s, |s|)`: continues the checksum `crc` over the bytes `s`. */
  function Update(crc: u32, s: seq<byte>): u32 {
    Word(Complement(Feed(Complement(Bits(crc, 32)), BitsOf(s))))
  }

  function Checksum(s: seq<byte>): u32 {
    Update(0, s)
  }

  lemma {:induction false} FeedConcat(r: Register, x: seq<bool>, y: seq<bool>)
    ensures Feed(r, x + y) == Feed(Feed(r, x), y)
  {
    if y == [] {
      assert x + y == x;
    } else {
      FeedConcat(r, x, y[..|y| - 1]);
      assert (x + y)[..|x + y| - 1] == x + y[..|y| - 1];
    }
  }

  lemma {:induction false} BitsOfConcat(s: seq<byte>, t: seq<byte>)
    ensures BitsOf(s + t) == BitsOf(s) + BitsOf(t)
  {
    hide Bits;
    if s == [] {
      assert s + t == t;
    } else {
      BitsOfConcat(s[1..], t);
      assert (s + t)[1..] == s[1..] + t && (s + t)[0] == s[0];
      var b, x, y := Bits(s[0], 8), BitsOf(s[1..]), BitsOf(t);
      assert b + (x + y) == (b + x) + y;
    }
  }

  lemma ComplementWord(r: Register)
    ensures Complement(Bits(Word(Complement(r)), 32)) == r
  {
    Pow2Word();
    BitsValue(Complement(r));
  }

  /** Chaining: a checksum continued over a second piece is the checksum of the concatenation. */
  lemma UpdateConcat(crc: u32, s: seq<byte>, t: seq<byte>)
    ensures Update(Update(crc, s), t) == Update(crc, s + t)
  {
    var r := Complement(Bits(crc, 32));
    ComplementWord(Feed(r, BitsOf(s)));
    FeedConcat(r, BitsOf(s), BitsOf(t));
    BitsOfConcat(s, t);
  }

  // ----- the table-driven form -----

  function Xor(a: Register, b: Register): Register {
    seq(32, i requires 0 <= i < 32 => a[i] != b[i])
  }

  /** Up to eight bits at the low end of a register. */
  function Low(bits: seq<bool>): Register
    requires |bits| <= 8
  {
    seq(32, i requires 0 <= i < 32 => i < |bits| && bits[i])
  }

  function Right8(r: Register): Register {
    seq(32, i requires 0 <= i < 32 => i < 24 && r[i + 8])
  }

  function Shifts(r: Register, k: nat): Register {
    if k == 0 then r else Shift(Shifts(r, k - 1))
  }

  /** `crc_table[n]`: eight shifts of the index. */
  function Table(index: seq<bool>): Register
    requires |index| == 8
  {
    Shifts(Low(index), 8)
  }

  lemma ShiftLinear(a: Register, b: Register)
    ensures Shift(Xor(a, b)) == Xor(Shift(a), Shift(b))
  {
  }

  lemma {:induction false} ShiftsLinear(a: Register, b: Register, k: nat)
    ensures Shifts(Xor(a, b), k) == Xor(Shifts(a, k), Shifts(b, k))
  {
    hide Xor, Shift;
    if k > 0 {
      ShiftsLinear(a, b, k - 1);
      ShiftLinear(Shifts(a, k - 1), Shifts(b, k - 1));
    }
  }

  /** While only zeros fall out, a shift is a shift. */
  lemma {:induction false} ShiftsOfZeros(r: Register, k: nat)
    requires k <= 8 && forall i :: 0 <= i < k ==> !r[i]
    ensures forall i :: 0 <= i < 32 ==> Shifts(r, k)[i] == (i + k < 32 && r[i + k])
  {
    if k > 0 {
      ShiftsOfZeros(r, k - 1);
    }
  }

  /** Entering bits one at a time is entering them all at the low end first. */
  lemma {:induction false} FeedIsShifts(r: Register, bits: seq<bool>)
    requires |bits| <= 8
    ensures Feed(r, bits) == Shifts(Xor(r, Low(bits)), |bits|)
  {
    var k := |bits| - 1;
    if bits == [] {
      assert Xor(r, Low(bits)) == r;
    } else {
      var before, unit := Low(bits[..k]), seq<bool>(32, i => i == k && bits[k]);
      FeedIsShifts(r, bits[..k]);
      assert Xor(r, Low(bits)) == Xor(Xor(r, before), unit);
      ShiftsLinear(Xor(r, before), unit, k);
      ShiftsOfZeros(unit, k);
      EnterIsXor(Shifts(Xor(r, before), k), bits[k], Shifts(unit, k));
    }
  }

  lemma EnterIsXor(r: Register, bit: bool, unit: Register)
    requires forall i :: 0 <= i < 32 ==> unit[i] == (i == 0 && bit)
    ensures Enter(r, bit) == Shift(Xor(r, unit))
  {
    assert r[0 := r[0] != bit] == Xor(r, unit);
  }

  /** The loop body of RFC 1952, section 8, `c = crc_table[(c ^ b) & 0xff] ^ (c >> 8)`, enters the eight bits of a byte. */
  lemma TableDriven(r: Register, b: byte)
    ensures
      var index := Xor(r, Low(Bits(b, 8)))[..8];
      Feed(r, Bits(b, 8)) == Xor(Table(index), Right8(r))
  {
    hide Bits, Shift;
    var x := Xor(r, Low(Bits(b, 8)));
    var high: Register := seq(32, i requires 0 <= i < 32 => i >= 8 && r[i]);
    FeedIsShifts(r, Bits(b, 8));
    assert x == Xor(Low(x[..8]), high);
    ShiftsLinear(Low(x[..8]), high, 8);
    ShiftsOfZeros(high, 8);
    assert Shifts(high, 8) == Right8(r);
  }

  // ----- error detection -----

  /** The registers differ in some bit at position `m` or above. */
  ghost predicate DifferFrom(a: Register, b: Register, m: nat) {
    exists i :: m <= i < 32 && a[i] != b[i]
  }

  /** A difference moves down by at most one position per step, whatever bits enter. */
  lemma EnterKeepsDifference(a: Register, b: Register, e: bool, f: bool, m: nat)
    requires 0 < m && DifferFrom(a, b, m)
    ensures DifferFrom(Enter(a, e), Enter(b, f), m - 1)
  {
    var i :| m <= i < 32 && a[i] != b[i];
    if (a[0] != e) != (b[0] != f) {
      EnterBit(a, e, 31);
      EnterBit(b, f, 31);
      assert Enter(a, e)[31] != Enter(b, f)[31];
    } else {
      EnterBit(a, e, i - 1);
      EnterBit(b, f, i - 1);
      assert Enter(a, e)[i - 1] != Enter(b, f)[i - 1];
    }
  }

  lemma EnterDistinguishes(a: Register, e: bool, f: bool)
    requires e != f
    ensures DifferFrom(Enter(a, e), Enter(a, f), 31)
  {
    EnterBit(a, e, 31);
    EnterBit(a, f, 31);
    assert Enter(a, e)[31] != Enter(a, f)[31];
  }

  lemma EnterInjective(a: Register, b: Register, e: bool)
    requires a != b
    ensures Enter(a, e) != Enter(b, e)
  {
    var i :| 0 <= i < 32 && a[i] != b[i];
    if a[0] != b[0] {
      EnterBit(a, e, 31);
      EnterBit(b, e, 31);
    } else {
      EnterBit(a, e, i - 1);
      EnterBit(b, e, i - 1);
    }
  }

  /** Up to 32 bits entered from one register: different bits leave different registers. */
  lemma {:induction false} BurstDistinguishes(r: Register, x: seq<bool>, y: seq<bool>)
    requires |x| == |y| <= 32 && x != y
    ensures DifferFrom(Feed(r, x), Feed(r, y), 32 - |x|)
  {
    var n := |x| - 1;
    if x[..n] == y[..n] {
      assert x == x[..n] + [x[n]] && y == y[..n] + [y[n]];
      EnterDistinguishes(Feed(r, x[..n]), x[n], y[n]);
    } else {
      BurstDistinguishes(r, x[..n], y[..n]);
      EnterKeepsDifference(Feed(r, x[..n]), Feed(r, y[..n]), x[n], y[n], 32 - n);
    }
  }

  lemma {:induction false} FeedInjective(a: Register, b: Register, bits: seq<bool>)
    requires a != b
    ensures Feed(a, bits) != Feed(b, bits)
  {
    if bits != [] {
      FeedInjective(a, b, bits[..|bits| - 1]);
      EnterInjective(Feed(a, bits[..|bits| - 1]), Feed(b, bits[..|bits| - 1]), bits[|bits| - 1]);
    }
  }

  lemma {:induction false} BitsOfInjective(s: seq<byte>, t: seq<byte>)
    requires |s| == |t| && BitsOf(s) == BitsOf(t)
    ensures s == t
  {
    if s != [] {
      assert BitsOf(s)[..8] == Bits(s[0], 8) && BitsOf(t)[..8] == Bits(t[0], 8);
      assert BitsOf(s)[8..] == BitsOf(s[1..]) && BitsOf(t)[8..] == BitsOf(t[1..]);
      Pow2Word();
      ValueBits(s[0], 8);
      ValueBits(t[0], 8);
      BitsOfInjective(s[1..], t[1..]);
    }
  }

  /** Error detection: a change confined to four consecutive bytes changes the checksum. */
  lemma BurstDetected(pre: seq<byte>, s: seq<byte>, t: seq<byte>, post: seq<byte>)
    requires |s| == |t| <= 4 && s != t
    ensures Checksum(pre + s + post) != Checksum(pre + t + post)
  {
    var r := Feed(Complement(Bits(0, 32)), BitsOf(pre));
    if BitsOf(s) == BitsOf(t) {
      BitsOfInjective(s, t);
    }
    BurstDistinguishes(r, BitsOf(s), BitsOf(t));
    FeedInjective(Feed(r, BitsOf(s)), Feed(r, BitsOf(t)), BitsOf(post));
    ChecksumOfThree(pre, s, post);
    ChecksumOfThree(pre, t, post);
    ComplementWord(Feed(Feed(r, BitsOf(s)), BitsOf(post)));
    ComplementWord(Feed(Feed(r, BitsOf(t)), BitsOf(post)));
  }

  lemma ChecksumOfThree(pre: seq<byte>, s: seq<byte>, post: seq<byte>)
    ensures Checksum(pre + s + post)
         == Word(Complement(Feed(Feed(Feed(Complement(Bits(0, 32)), BitsOf(pre)), BitsOf(s)), BitsOf(post))))
  {
    BitsOfConcat(pre + s, post);
    BitsOfConcat(pre, s);
    FeedConcat(Complement(Bits(0, 32)), BitsOf(pre) + BitsOf(s), BitsOf(post));
    FeedConcat(Complement(Bits(0, 32)), BitsOf(pre), BitsOf(s));
  }

  // ----- the polynomial and a check value -----

  lemma {:induction false} ValueConcat(x: seq<bool>, y: seq<bool>)
    ensures Value(x + y) == Value(x) + Pow2(|x|) * Value(y)
  {
    if x == [] {
      assert x + y == y;
    } else {
      ValueConcat(x[1..], y);
      assert (x + y)[1..] == x[1..] + y;
      assert Pow2(|x|) == 2 * Pow2(|x| - 1);
      Doubled(Pow2(|x| - 1), Value(y));
      hide Pow2;
    }
  }

  lemma Doubled(p: nat, w: nat)
    ensures 2 * (p * w) == (2 * p) * w
  {
  }

  lemma WordOfBytes(r: Register)
    ensures Word(r) == Value(r[..8]) + 0x100 * (Value(r[8..16]) + 0x100 * (Value(r[16..24]) + 0x100 * Value(r[24..])))
  {
    Pow2Word();
    hide Value, Pow2;
    ValueConcat(r[16..24], r[24..]);
    ValueConcat(r[8..16], r[16..]);
    ValueConcat(r[..8], r[8..]);
    assert r[16..24] + r[24..] == r[16..] && r[8..16] + r[16..] == r[8..] && r[..8] + r[8..] == r;
  }

  lemma {:induction false} OctetValue(n: nat, s: seq<bool>)
    requires n < 0x100 && Bits(n, 8) == s
    ensures Value(s) == n
  {
    Pow2Word();
    ValueBits(n, 8);
  }

  lemma OctetAt(r: Register, from: nat, n: byte, s: seq<bool>)
    requires |s| == 8 && from <= 24 && Bits(n, 8) == s
    requires forall i :: 0 <= i < 8 ==> r[from + i] == s[i]
    ensures Value(r[from..from + 8]) == n
  {
    assert r[from..from + 8] == s;
    OctetValue(n, s);
  }

  lemma FirstOctet()
    ensures Value(POLYNOMIAL[..8]) == 0x20
  {
    OctetAt(POLYNOMIAL, 0, 0x20, [false, false, false, false, false, true, false, false]);
  }

  lemma SecondOctet()
    ensures Value(POLYNOMIAL[8..16]) == 0x83
  {
    OctetAt(POLYNOMIAL, 8, 0x83, [true, true, false, false, false, false, false, true]);
  }

  lemma ThirdOctet()
    ensures Value(POLYNOMIAL[16..24]) == 0xB8
  {
    OctetAt(POLYNOMIAL, 16, 0xB8, [false, false, false, true, true, true, false, true]);
  }

  lemma FourthOctet()
    ensures Value(POLYNOMIAL[24..]) == 0xED
  {
    assert POLYNOMIAL[24..] == POLYNOMIAL[24..32];
    OctetAt(POLYNOMIAL, 24, 0xED, [true, false, true, true, false, true, true, true]);
  }

  lemma PolynomialBytes()
    ensures Value(POLYNOMIAL[..8]) == 0x20 && Value(POLYNOMIAL[8..16]) == 0x83
    ensures Value(POLYNOMIAL[16..24]) == 0xB8 && Value(POLYNOMIAL[24..]) == 0xED
  {
    hide Value, POLYNOMIAL;
    FirstOctet();
    SecondOctet();
    ThirdOctet();
    FourthOctet();
  }

  /** The register's polynomial is the reflected one of RFC 1952, section 8. */
  lemma PolynomialWord()
    ensures Word(POLYNOMIAL) == 0xEDB8_8320
  {
    PolynomialBytes();
    WordOfBytes(POLYNOMIAL);
  }

  lemma OneTerm(unit: Register)
    requires forall i :: 0 <= i < 32 ==> unit[i] == (i == 7)
    ensures Shifts(unit, 8) == POLYNOMIAL
  {
    ShiftsOfZeros(unit, 7);
    assert Shifts(unit, 7)[0];
  }

  lemma {:induction false} ZeroBits(k: nat)
    ensures forall i :: 0 <= i < k ==> !Bits(0, k)[i]
  {
    if k > 0 {
      ZeroBits(k - 1);
    }
  }

  lemma AllOnes()
    ensures Complement(Bits(0, 32)) == seq(32, i requires 0 <= i < 32 => true)
    ensures Bits(0x7F, 8) == [true, true, true, true, true, true, true, false]
    ensures BitsOf([0x7F]) == Bits(0x7F, 8)
  {
    ZeroBits(32);
  }

  lemma CheckRegister()
    ensures forall i :: 0 <= i < 32 ==> Feed(Complement(Bits(0, 32)), BitsOf([0x7F]))[i] == (POLYNOMIAL[i] != (i < 24))
  {
    var ones := Complement(Bits(0, 32));
    AllOnes();
    hide Bits, Complement, POLYNOMIAL, Feed, BitsOf, Shifts;
    TableDriven(ones, 0x7F);
    var index := Xor(ones, Low(Bits(0x7F, 8)))[..8];
    assert forall i :: 0 <= i < 8 ==> index[i] == (i == 7);
    OneTerm(Low(index));
    hide Low;
  }

  /** The check value of the one byte 0x7F. */
  lemma CheckValue()
    ensures Checksum([0x7F]) == 0x12B8_8320
  {
    CheckRegister();
    PolynomialBytes();
    var r := Complement(Feed(Complement(Bits(0, 32)), BitsOf([0x7F])));
    hide Bits, Feed, BitsOf, POLYNOMIAL, Value;
    assert r[..8] == POLYNOMIAL[..8] && r[8..16] == POLYNOMIAL[8..16] && r[16..24] == POLYNOMIAL[16..24];
    HighOctet(r[24..]);
    WordOfBytes(r);
  }

  lemma HighOctet(s: seq<bool>)
    requires |s| == 8 && forall i :: 0 <= i < 8 ==> s[i] != POLYNOMIAL[24 + i]
    ensures Value(s) == 0x12
  {
    assert s == [false, true, false, false, true, false, false, false];
    OctetValue(0x12, s);
  }
}
