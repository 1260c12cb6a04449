// The int32 lengths of the connection protocol.
module LittleEndian {
  import opened Common

  // int32(n) as four bytes, least significant first.
  function Le32(n: nat): (b: seq<byte>)
    requires n < 0x1_0000_0000
    ensures |b| == 4
  {
    [n % 0x100, n / 0x100 % 0x100, n / 0x1_0000 % 0x100, n / 0x100_0000]
  }

  // The int32 with those bytes; values from 2^31 up are negative.
  function FromLe32(b: seq<byte>): int
    requires |b| == 4
  {
    var u: int := (b[0] as int) + 0x100 * (b[1] as int) + 0x1_0000 * (b[2] as int) + 0x100_0000 * (b[3] as int);
    if u < 0x8000_0000 then u else u - 0x1_0000_0000
  }

  lemma Le32RoundTrip(n: nat)
    requires n < 0x8000_0000
    ensures FromLe32(Le32(n)) == n
  {
    var b, c := n / 0x100, n / 0x100 / 0x100;
    assert c == n / 0x1_0000 && c / 0x100 == n / 0x100_0000;
    assert n == n % 0x100 + 0x100 * b && b == b % 0x100 + 0x100 * c && c == c % 0x100 + 0x100 * (c / 0x100);
  }

  lemma LowDigit(n: nat, low: byte, rest: nat)
    ensures n == low + 256 * rest <==> n % 256 == low && n / 256 == rest
  {
  }

  lemma TwoDigits(n: nat)
    ensures n / 65536 == n / 256 / 256 && n / 16777216 == n / 256 / 256 / 256
  {
  }

  // The bytes of a 32-bit value, the low one first.
  lemma Le32Digits(n: nat, a: byte, b: byte, c: byte, d: byte)
    requires n < 0x1_0000_0000
    ensures Le32(n) == [a, b, c, d] <==> n == a + 256 * b + 65536 * c + 16777216 * d
  {
    TwoDigits(n);
    LowDigit(n, a, b + 256 * (c + 256 * d));
    LowDigit(n / 256, b, c + 256 * d);
    LowDigit(n / 256 / 256, c, d);
    LowDigit(n, n % 256, n / 256);
    LowDigit(n / 256, n / 256 % 256, n / 256 / 256);
    LowDigit(n / 256 / 256, n / 256 / 256 % 256, n / 256 / 256 / 256);
  }
}
