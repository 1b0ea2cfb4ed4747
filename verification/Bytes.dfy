// Octets and the two integer encodings the binary formats use.
module Bytes {
  type byte = b: int | 0 <= b < 256

  type bytes = seq<byte>

  function BigEndian16(hi: byte, lo: byte): (r: int)
    ensures 0 <= r < 0x1_0000
  {
    0x100 * hi as int + lo as int
  }

  function LittleEndian32(b: bytes): (r: int)
    requires |b| == 4
    ensures 0 <= r < 0x1_0000_0000
  {
    b[0] as int + 0x100 * b[1] as int + 0x1_0000 * b[2] as int + 0x100_0000 * b[3] as int
  }

  function ToLittleEndian32(n: int): (r: bytes)
    requires 0 <= n < 0x1_0000_0000
    ensures |r| == 4
  {
    [n % 0x100, n / 0x100 % 0x100, n / 0x1_0000 % 0x100, n / 0x100_0000]
  }

  lemma LittleEndianRoundTrip(n: int)
    requires 0 <= n < 0x1_0000_0000
    ensures LittleEndian32(ToLittleEndian32(n)) == n
  {
    var a, b := n / 0x100, n / 0x1_0000;
    assert n == n % 0x100 + 0x100 * a && a / 0x100 == b && a == a % 0x100 + 0x100 * b;
    assert b / 0x100 == n / 0x100_0000 && b == b % 0x100 + 0x100 * (n / 0x100_0000);
  }

  function ToBigEndian16(n: int): (r: bytes)
    requires 0 <= n < 0x1_0000
    ensures |r| == 2
  {
    [n / 0x100, n % 0x100]
  }

  lemma BigEndianRoundTrip(n: int)
    requires 0 <= n < 0x1_0000
    ensures BigEndian16(ToBigEndian16(n)[0], ToBigEndian16(n)[1]) == n
  {
  }
}
