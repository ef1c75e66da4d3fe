/** The bitwise CRC-32 over bytes. */
module Crc32 {
  // The 32-bit register is its bits, lowest first, so `>>> 1` drops the first bit and appends a zero.
  import opened Words

  type Register = r: seq<bool> | |r| == 32 witness Zeros(32)

  function Polynomial(): Register {
    BitsOf(0xedb8_8320, 32)
  }

  /** One turn of the inner loop. */
  function Shift(c: Register): Register {
    Xor(c[1..] + [false], if c[0] then Polynomial() else Zeros(32))
  }

  function Shifts(c: Register, n: nat): Register
    decreases n
  {
    if n == 0 then c else Shifts(Shift(c), n - 1)
  }

  function Widen(b: byte): Register {
    BitsOf(b, 8) + Zeros(24)
  }

  /** One turn of the outer loop. */
  function Absorb(c: Register, b: byte): Register {
    Shifts(Xor(c, Widen(b)), 8)
  }

  /** The register after the bytes, starting from c. */
  function Feed(c: Register, bytes: seq<byte>): Register
    decreases |bytes|
  {
    if bytes == [] then c else Feed(Absorb(c, bytes[0]), bytes[1..])
  }

  /** The checksum as bits; `Number` below is the value the program stores. */
  function Crc(bytes: seq<byte>): Register {
    Xor(Feed(Ones(32), bytes), Ones(32))
  }

  function Number(bytes: seq<byte>): nat {
    NumberOf(Crc(bytes))
  }

  method Turn(start: Register, turns: nat) returns (crc: Register)
    ensures crc == Shifts(start, turns)
  {
    crc := start;
    for bit := 0 to turns
      invariant Shifts(crc, turns - bit) == Shifts(start, turns)
    {
      crc := Shift(crc);
    }
  }

  method Compute(bytes: array<byte>) returns (sum: nat)
    ensures sum == Number(bytes[..])
  {
    var crc: Register := Ones(32);
    for i := 0 to bytes.Length
      invariant Feed(crc, bytes[i..]) == Feed(Ones(32), bytes[..])
    {
      assert bytes[i..][1..] == bytes[i + 1..];
      crc := Turn(Xor(crc, Widen(bytes[i])), 8);
    }
    crc := Xor(crc, Ones(32));
    sum := NumberOf(crc);
  }
}
