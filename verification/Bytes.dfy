/** Bytes, and 32-bit numbers as four of them. */
module Bytes {
  type Byte = b: int | 0 <= b < 256
  type Word16 = n: int | 0 <= n < 0x1_0000
  type Word32 = n: int | 0 <= n < 0x1_0000_0000

  function Be32(n: Word32): (b: seq<Byte>)
    ensures |b| == 4
  {
    [n / 256 / 256 / 256, n / 256 / 256 % 256, n / 256 % 256, n % 256]
  }

  function Join(high: nat, low: Byte): (n: nat)
    ensures n / 256 == high && n % 256 == low
  {
    256 * high + low
  }

  function FromBe32(b: seq<Byte>): (n: Word32)
    requires |b| == 4
  {
    Join(Join(Join(b[0], b[1]), b[2]), b[3])
  }

  function Le32(n: Word32): (b: seq<Byte>)
    ensures |b| == 4
  {
    [n % 256, n / 256 % 256, n / 256 / 256 % 256, n / 256 / 256 / 256]
  }

  function FromLe32(b: seq<Byte>): (n: Word32)
    requires |b| == 4
  {
    FromBe32([b[3], b[2], b[1], b[0]])
  }

  /** The number with four digits to the base 256. */
  function Number4(a: int, b: int, c: int, d: int): (n: int) {
    0x100_0000 * a + 0x1_0000 * b + 0x100 * c + d
  }

  /** The most significant byte comes first. */
  lemma Be32Means(b: seq<Byte>)
    requires |b| == 4
    ensures FromBe32(b) == Number4(b[0], b[1], b[2], b[3])
  {
  }

  /** The least significant byte comes first. */
  lemma Le32Means(b: seq<Byte>)
    requires |b| == 4
    ensures FromLe32(b) == Number4(b[3], b[2], b[1], b[0])
  {
  }

  lemma Le32Digits(n: Word32, b: seq<Byte>)
    requires |b| == 4
    ensures Le32(n) == b <==> n == Number4(b[3], b[2], b[1], b[0])
  {
    hide FromLe32;
    hide Le32;
    Le32Means(b);
    Le32Back(n);
    Le32There(b);
  }

  lemma Be32Back(n: Word32)
    ensures FromBe32(Be32(n)) == n
  {
  }

  lemma Be32There(b: seq<Byte>)
    requires |b| == 4
    ensures Be32(FromBe32(b)) == b
  {
  }

  lemma Le32Back(n: Word32)
    ensures FromLe32(Le32(n)) == n
  {
  }

  lemma Le32There(b: seq<Byte>)
    requires |b| == 4
    ensures Le32(FromLe32(b)) == b
  {
  }
}
