/** The MessagePack formats in use: strings, maps, arrays and binary data, and unsigned integers up to 32 bits. */
module MessagePack {
  import opened Bytes

  /** A value and the bytes after it, or a read that fails. */
  datatype Read<T> = Fail | Got(value: T, rest: seq<byte>)

  /** A C string: what comes before the first zero byte. */
  function CStr(s: seq<byte>): (r: seq<byte>)
    ensures 0 !in r && r <= s
    ensures 0 !in s ==> r == s
  {
    if s == [] || s[0] == 0 then [] else [s[0]] + CStr(s[1..])
  }

  function Ascii(s: string): (r: seq<byte>)
    ensures |r| == |s|
  {
    seq(|s|, i requires 0 <= i < |s| => s[i] as int % 0x80)
  }

  // ----- writing -----

  function PutStr(s: seq<byte>): seq<byte>
    requires |s| < 0x100
  {
    if |s| < 32 then [0xA0 + |s|] + s else [0xD9, |s|] + s
  }

  function PutU8(b: byte): seq<byte> {
    [0xCC, b]
  }

  function PutUint(n: u32): seq<byte> {
    if n < 0x80 then [n]
    else if n < 0x100 then [0xCC, n]
    else if n < 0x1_0000 then [0xCD, n / 0x100, n % 0x100]
    else [0xCE] + BigEndian(n)
  }

  function PutMap(n: nat): seq<byte>
    requires n < 0x1_0000
  {
    if n < 16 then [0x80 + n] else [0xDE, n / 0x100, n % 0x100]
  }

  function PutArray(n: nat): seq<byte>
    requires n < 16
  {
    [0x90 + n]
  }

  function PutBin(s: seq<byte>): seq<byte>
    requires |s| < 0x1_0000
  {
    if |s| < 0x100 then [0xC4, |s|] + s else [0xC5, |s| / 0x100, |s| % 0x100] + s
  }

  // ----- reading -----

  /** `cmp_read_str` into a buffer of `size` bytes, the terminating zero included. */
  function GetStr(s: seq<byte>, size: nat): Read<seq<byte>> {
    if s == [] then Fail
    else if 0xA0 <= s[0] < 0xC0 then TakeStr(s[1..], s[0] - 0xA0, size)
    else if s[0] == 0xD9 && 2 <= |s| then TakeStr(s[2..], s[1], size)
    else if s[0] == 0xDA && 3 <= |s| then TakeStr(s[3..], s[1] as nat * 0x100 + s[2], size)
    else Fail
  }

  function TakeStr(s: seq<byte>, n: nat, size: nat): Read<seq<byte>> {
    if n + 1 > size || n > |s| then Fail else Got(CStr(s[..n]), s[n..])
  }

  /** `cmp_read_uint` */
  function GetUint(s: seq<byte>): Read<u32> {
    if s == [] then Fail
    else if s[0] < 0x80 then Got(s[0], s[1..])
    else if s[0] == 0xCC && 2 <= |s| then Got(s[1], s[2..])
    else if s[0] == 0xCD && 3 <= |s| then Got(s[1] as nat * 0x100 + s[2], s[3..])
    else if s[0] == 0xCE && 5 <= |s| then Got(FromBytes(s[1], s[2], s[3], s[4]), s[5..])
    else Fail
  }

  /** `cmp_read_uchar` */
  function GetU8(s: seq<byte>): Read<byte> {
    if s == [] then Fail
    else if s[0] < 0x80 then Got(s[0], s[1..])
    else if s[0] == 0xCC && 2 <= |s| then Got(s[1], s[2..])
    else Fail
  }

  /** `cmp_read_map` */
  function GetMap(s: seq<byte>): Read<nat> {
    if s == [] then Fail
    else if 0x80 <= s[0] < 0x90 then Got(s[0] - 0x80, s[1..])
    else if s[0] == 0xDE && 3 <= |s| then Got(s[1] as nat * 0x100 + s[2], s[3..])
    else Fail
  }

  /** `cmp_read_array` */
  function GetArray(s: seq<byte>): Read<nat> {
    if s == [] then Fail
    else if 0x90 <= s[0] < 0xA0 then Got(s[0] - 0x90, s[1..])
    else if s[0] == 0xDC && 3 <= |s| then Got(s[1] as nat * 0x100 + s[2], s[3..])
    else Fail
  }

  /** `cmp_read_bin_size`; the data itself is left where it is. */
  function GetBinSize(s: seq<byte>): Read<nat> {
    if s == [] then Fail
    else if s[0] == 0xC4 && 2 <= |s| then Got(s[1], s[2..])
    else if s[0] == 0xC5 && 3 <= |s| then Got(s[1] as nat * 0x100 + s[2], s[3..])
    else if s[0] == 0xC6 && 5 <= |s| then Got(FromBytes(s[1], s[2], s[3], s[4]), s[5..])
    else Fail
  }

  // ----- reading inverts writing -----

  lemma GetPutStr(s: seq<byte>, rest: seq<byte>, size: nat)
    requires |s| < 0x100 && 0 !in s
    ensures GetStr(PutStr(s) + rest, size) == if |s| < size then Got(s, rest) else Fail
  {
    var w := PutStr(s) + rest;
    if |s| < 32 {
      assert w[1..] == s + rest;
    } else {
      assert w[2..] == s + rest;
    }
    assert (s + rest)[..|s|] == s && (s + rest)[|s|..] == rest;
  }

  lemma TakeAnyStr(s: seq<byte>, rest: seq<byte>, size: nat)
    ensures TakeStr(s + rest, |s|, size) == if |s| < size then Got(CStr(s), rest) else Fail
  {
    assert (s + rest)[..|s|] == s && (s + rest)[|s|..] == rest;
  }

  /** A string is read whichever header it carries, cut at the first zero. */
  lemma GetAnyStr(s: seq<byte>, rest: seq<byte>, size: nat, header: seq<byte>)
    requires (header == [0xA0 + |s|] && |s| < 32)
             || header == [0xD9, |s|]
             || header == [0xDA, |s| / 0x100, |s| % 0x100]
    ensures GetStr(header + (s + rest), size) == if |s| < size then Got(CStr(s), rest) else Fail
  {
    TakeAnyStr(s, rest, size);
    var t := s + rest;
    var w := header + t;
    assert w[|header|..] == t && w[0] == header[0];
    assert GetStr(w, size) == TakeStr(t, |s|, size) by {
      hide TakeStr;
      assert |header| == 3 ==> w[1] as nat * 0x100 + w[2] == |s|;
    }
    hide GetStr;
  }

  /** A number is read whichever of its forms it has. */
  lemma GetAnyUint(n: u32, rest: seq<byte>)
    ensures n < 0x80 ==> GetUint([n] + rest) == Got(n, rest)
    ensures n < 0x100 ==> GetUint([0xCC, n] + rest) == Got(n, rest)
    ensures n < 0x1_0000 ==> GetUint([0xCD, n / 0x100, n % 0x100] + rest) == Got(n, rest)
    ensures GetUint([0xCE] + BigEndian(n) + rest) == Got(n, rest)
  {
    FromBigEndian(n);
    if n < 0x80 {
      assert ([n] + rest)[1..] == rest;
    }
    if n < 0x100 {
      assert ([0xCC, n] + rest)[2..] == rest;
    }
    if n < 0x1_0000 {
      assert ([0xCD, n / 0x100, n % 0x100] + rest)[3..] == rest;
    }
    var w := [0xCE] + BigEndian(n) + rest;
    assert w[1..5] == BigEndian(n) && w[5..] == rest;
    assert w[1] == w[1..5][0] && w[2] == w[1..5][1] && w[3] == w[1..5][2] && w[4] == w[1..5][3];
  }

  lemma GetPutUint(n: u32, rest: seq<byte>)
    ensures GetUint(PutUint(n) + rest) == Got(n, rest)
  {
    var w := PutUint(n) + rest;
    FromBigEndian(n);
    if n >= 0x1_0000 {
      assert w[1..5] == BigEndian(n);
      assert w[1] == w[1..5][0] && w[2] == w[1..5][1] && w[3] == w[1..5][2] && w[4] == w[1..5][3];
    }
    assert w[|PutUint(n)|..] == rest;
  }

  lemma GetPutU8(b: byte, rest: seq<byte>)
    ensures GetU8(PutU8(b) + rest) == Got(b, rest)
    ensures GetU8(PutUint(b) + rest) == Got(b, rest)
  {
    assert (PutU8(b) + rest)[2..] == rest;
    assert (PutUint(b) + rest)[|PutUint(b)|..] == rest;
  }

  lemma GetPutMap(n: nat, rest: seq<byte>)
    requires n < 0x1_0000
    ensures GetMap(PutMap(n) + rest) == Got(n, rest)
  {
    assert (PutMap(n) + rest)[|PutMap(n)|..] == rest;
  }

  lemma GetPutArray(n: nat, rest: seq<byte>)
    requires n < 16
    ensures GetArray(PutArray(n) + rest) == Got(n, rest)
  {
    assert (PutArray(n) + rest)[1..] == rest;
  }

  lemma GetPutBin(s: seq<byte>, rest: seq<byte>)
    requires |s| < 0x1_0000
    ensures GetBinSize(PutBin(s) + rest) == Got(|s|, s + rest)
  {
    var w := PutBin(s) + rest;
    if |s| < 0x100 {
      assert w[2..] == s + rest;
    } else {
      assert w[3..] == s + rest;
    }
  }
}
