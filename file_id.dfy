/** The asset identifier both processes compute: the first 16 characters of the
    lowercase hexadecimal MD5 digest of the UTF-8 encoding of a path string
    relative to the models root or the trajectories root. MD5 is written out as
    RFC 1321 defines it, so that the identifier is a total function of the
    string and of nothing else; no property of the digest beyond its length and
    alphabet is used anywhere in the model. */
module FileIds {

  newtype byte = b: int | 0 <= b < 256

  /** `s.encode()`: UTF-8. A Dafny string holds Unicode scalar values only, so
      a file name whose bytes are not valid UTF-8 (which Python decodes with
      surrogate escapes, and on which `encode()` raises) cannot be written here;
      every name the model holds encodes. */
  function Utf8(s: string): seq<byte> {
    if |s| == 0 then [] else EncodeChar(s[0]) + Utf8(s[1..])
  }

  function EncodeChar(c: char): (r: seq<byte>)
    ensures 1 <= |r| <= 4
  {
    var n := c as int;
    if n < 0x80 then [n as byte]
    else if n < 0x800 then [(0xC0 + n / 0x40) as byte, (0x80 + n % 0x40) as byte]
    else if n < 0x10000 then
      [(0xE0 + n / 0x1000) as byte, (0x80 + (n / 0x40) % 0x40) as byte, (0x80 + n % 0x40) as byte]
    else
      [(0xF0 + n / 0x40000) as byte, (0x80 + (n / 0x1000) % 0x40) as byte,
       (0x80 + (n / 0x40) % 0x40) as byte, (0x80 + n % 0x40) as byte]
  }

  datatype Md5State = Md5State(a: bv32, b: bv32, c: bv32, d: bv32)

  const Init := Md5State(0x67452301, 0xefcdab89, 0x98badcfe, 0x10325476)

  /** The sine table of RFC 1321, section 3.4. */
  const T: seq<bv32> := [
    0xd76aa478, 0xe8c7b756, 0x242070db, 0xc1bdceee, 0xf57c0faf, 0x4787c62a, 0xa8304613, 0xfd469501,
    0x698098d8, 0x8b44f7af, 0xffff5bb1, 0x895cd7be, 0x6b901122, 0xfd987193, 0xa679438e, 0x49b40821,
    0xf61e2562, 0xc040b340, 0x265e5a51, 0xe9b6c7aa, 0xd62f105d, 0x02441453, 0xd8a1e681, 0xe7d3fbc8,
    0x21e1cde6, 0xc33707d6, 0xf4d50d87, 0x455a14ed, 0xa9e3e905, 0xfcefa3f8, 0x676f02d9, 0x8d2a4c8a,
    0xfffa3942, 0x8771f681, 0x6d9d6122, 0xfde5380c, 0xa4beea44, 0x4bdecfa9, 0xf6bb4b60, 0xbebfbc70,
    0x289b7ec6, 0xeaa127fa, 0xd4ef3085, 0x04881d05, 0xd9d4d039, 0xe6db99e5, 0x1fa27cf8, 0xc4ac5665,
    0xf4292244, 0x432aff97, 0xab9423a7, 0xfc93a039, 0x655b59c3, 0x8f0ccc92, 0xffeff47d, 0x85845dd1,
    0x6fa87e4f, 0xfe2ce6e0, 0xa3014314, 0x4e0811a1, 0xf7537e82, 0xbd3af235, 0x2ad7d2bb, 0xeb86d391
  ]

  /** The per-step left rotations of RFC 1321, section 3.4, four per round. */
  const Shifts: seq<nat> := [7, 12, 17, 22, 5, 9, 14, 20, 4, 11, 16, 23, 6, 10, 15, 21]

  /** Little-endian 32-bit word j of a 64-byte block. */
  function Word(block: seq<byte>, j: nat): bv32
    requires |block| >= 64 && j < 16
  {
    (block[4 * j] as bv32)
    | ((block[4 * j + 1] as bv32) << 8)
    | ((block[4 * j + 2] as bv32) << 16)
    | ((block[4 * j + 3] as bv32) << 24)
  }

  /** Step i (0 to 63) of the four rounds over one block. */
  function Step(s: Md5State, i: nat, block: seq<byte>): Md5State
    requires i < 64 && |block| >= 64
  {
    var round := i / 16;
    var f :=
      if round == 0 then (s.b & s.c) | (!s.b & s.d)
      else if round == 1 then (s.b & s.d) | (s.c & !s.d)
      else if round == 2 then s.b ^ s.c ^ s.d
      else s.c ^ (s.b | !s.d);
    var k :=
      if round == 0 then i
      else if round == 1 then (5 * i + 1) % 16
      else if round == 2 then (3 * i + 5) % 16
      else (7 * i) % 16;
    assert 0 <= k < 16 && 4 * round + i % 4 < 16;
    var sum := s.a + f + T[i] + Word(block, k);
    Md5State(s.d, s.b + sum.RotateLeft(Shifts[4 * round + i % 4]), s.b, s.c)
  }

  /** The hexadecimal digest of the n 64-byte blocks of data, starting from the
      chaining state s. */
  function DigestHex(s: Md5State, data: seq<byte>, n: nat): (r: string)
    requires |data| == 64 * n
    ensures |r| == 32 && forall k :: 0 <= k < |r| ==> IsHexDigit(r[k])
    decreases n, 1
  {
    if n == 0 then Hex(StateBytes(s)) else Rounds(s, s, data, 0, n)
  }

  /** Steps i to 63 over the first block of data; `start` is the chaining state
      the block began with, which step 64 adds back in. */
  function Rounds(start: Md5State, s: Md5State, data: seq<byte>, i: nat, n: nat): (r: string)
    requires i <= 64 && 0 < n && |data| == 64 * n
    ensures |r| == 32 && forall k :: 0 <= k < |r| ==> IsHexDigit(r[k])
    decreases n, 0, 64 - i
  {
    if i == 64 then
      var next := Md5State(start.a + s.a, start.b + s.b, start.c + s.c, start.d + s.d);
      DigestHex(next, data[64..], n - 1)
    else Rounds(start, Step(s, i, data), data, i + 1, n)
  }

  /** The n low bytes of v, least significant first. */
  function LittleEndian(v: nat, n: nat): (r: seq<byte>)
    ensures |r| == n
  {
    if n == 0 then [] else [(v % 256) as byte] + LittleEndian(v / 256, n - 1)
  }

  /** How many blocks a message of len bytes pads to: room for the 0x80 byte and
      the 8-byte length. */
  function BlockCount(len: nat): nat {
    (len + 8) / 64 + 1
  }

  /** Message padding of RFC 1321, sections 3.1 and 3.2: 0x80, then zero bytes up
      to 56 modulo 64, then the bit length modulo 2^64, least significant byte first. */
  function Padded(m: seq<byte>): (r: seq<byte>)
    ensures |r| == 64 * BlockCount(|m|)
  {
    var zeros := 64 * BlockCount(|m|) - |m| - 9;
    m + [0x80] + seq(zeros, _ => 0) + LittleEndian((8 * |m|) % 0x1_0000_0000_0000_0000, 8)
  }

  /** The four state words, each least significant byte first. */
  function StateBytes(s: Md5State): (r: seq<byte>)
    ensures |r| == 16
  {
    LittleEndian(s.a as nat, 4) + LittleEndian(s.b as nat, 4)
      + LittleEndian(s.c as nat, 4) + LittleEndian(s.d as nat, 4)
  }

  predicate IsHexDigit(c: char) {
    '0' <= c <= '9' || 'a' <= c <= 'f'
  }

  function HexDigit(v: nat): (c: char)
    requires v < 16
    ensures IsHexDigit(c)
  {
    if v < 10 then '0' + v as char else 'a' + (v - 10) as char
  }

  /** `hexdigest()`: two lowercase digits per byte, high nibble first. */
  function Hex(bytes: seq<byte>): (r: string)
    ensures |r| == 2 * |bytes|
    ensures forall k :: 0 <= k < |r| ==> IsHexDigit(r[k])
  {
    if |bytes| == 0 then ""
    else
      var v := bytes[0] as int;
      [HexDigit(v / 16), HexDigit(v % 16)] + Hex(bytes[1..])
  }

  /** `hashlib.md5(path.encode()).hexdigest()[:16]`, the same expression at
      backend/storage.py:24 and backend/scripts/generate_thumbnails.py:63. */
  function FileId(path: string): (id: string)
    ensures |id| == 16
    ensures forall k :: 0 <= k < |id| ==> IsHexDigit(id[k])
  {
    var m := Utf8(path);
    DigestHex(Init, Padded(m), BlockCount(|m|))[..16]
  }
}
