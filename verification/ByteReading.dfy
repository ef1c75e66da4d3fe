/** Fixed-width numbers in byte strings, as DataView reads and writes them, in both byte
    orders, and the characters that bytes stand for. */
module ByteReading {
  import opened Words

  function BigEndian16(s: seq<byte>, at: nat): (n: nat)
    requires at + 2 <= |s|
    ensures n < 0x1_0000
  {
    (s[at] as int) * 0x100 + s[at + 1]
  }

  function BigEndian32(s: seq<byte>, at: nat): (n: nat)
    requires at + 4 <= |s|
    ensures n < 0x1_0000_0000
  {
    BigEndian16(s, at) * 0x1_0000 + BigEndian16(s, at + 2)
  }

  function LittleEndian16(s: seq<byte>, at: nat): (n: nat)
    requires at + 2 <= |s|
    ensures n < 0x1_0000
  {
    s[at] + (s[at + 1] as int) * 0x100
  }

  function LittleEndian24(s: seq<byte>, at: nat): (n: nat)
    requires at + 3 <= |s|
    ensures n < 0x100_0000
  {
    s[at] + (s[at + 1] as int) * 0x100 + (s[at + 2] as int) * 0x1_0000
  }

  function LittleEndian32(s: seq<byte>, at: nat): (n: nat)
    requires at + 4 <= |s|
    ensures n < 0x1_0000_0000
  {
    LittleEndian16(s, at) + LittleEndian16(s, at + 2) * 0x1_0000
  }

  lemma BytesOfWord(n: nat)
    requires n < 0x1_0000_0000
    ensures n / 0x100_0000 < 0x100
    ensures n / 0x1_0000 == n / 0x100_0000 * 0x100 + n / 0x1_0000 % 0x100
    ensures n % 0x1_0000 == n / 0x100 % 0x100 * 0x100 + n % 0x100
  {
  }

  /** What setUint32 stores: the value modulo 2^32, highest byte first. */
  function Uint32Bytes(v: int): (s: seq<byte>)
    ensures |s| == 4 && BigEndian32(s, 0) == v % 0x1_0000_0000
  {
    var n := v % 0x1_0000_0000;
    BytesOfWord(n);
    [n / 0x100_0000, n / 0x1_0000 % 0x100, n / 0x100 % 0x100, n % 0x100]
  }

  lemma BigEndianSlice(s: seq<byte>, at: nat)
    requires at + 4 <= |s|
    ensures BigEndian32(s, at) == BigEndian32(s[at..at + 4], 0)
  {
  }

  /** What a two-byte length field holds. */
  function Uint16Bytes(n: nat): (s: seq<byte>)
    requires n < 0x1_0000
    ensures |s| == 2 && BigEndian16(s, 0) == n
  {
    [n / 0x100, n % 0x100]
  }

  /** The bytes start..end as characters; `slice` stops at the end of the buffer. */
  function Ascii(s: seq<byte>, start: nat, end: nat): string
    requires start <= end
    decreases end - start
  {
    if start >= |s| || start == end then "" else [s[start] as char] + Ascii(s, start + 1, end)
  }
}
