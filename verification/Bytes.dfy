/** Machine integers as byte strings: the big-endian TLV length and the native frame header. */
module Bytes {

  type byte = b: int | 0 <= b < 256

  const TWO_32: int := 0x1_0000_0000
  const TWO_31: int := 0x8000_0000
  const TWO_64: int := 0x1_0000_0000_0000_0000

  type size_t = n: int | 0 <= n < 0x1_0000_0000_0000_0000

  // ---------------------------------------------------------------- TLV length

  /** `b << 8 * (3 - i)` before any truncation. */
  function Scaled(b: int, i: nat): int
    requires i < 4
  {
    if i == 0 then 0x100_0000 * b else if i == 1 then 0x1_0000 * b else if i == 2 then 0x100 * b else b
  }

  /** `(n >> (3 - i) * 8) & 0xFF` */
  function LengthByte(n: nat, i: nat): byte
    requires i < 4
  {
    if i == 0 then n / 0x100_0000 % 256
    else if i == 1 then n / 0x1_0000 % 256
    else if i == 2 then n / 0x100 % 256
    else n % 256
  }

  function BigEndian(n: nat): (bs: seq<byte>)
    ensures |bs| == 4
  {
    [LengthByte(n, 0), LengthByte(n, 1), LengthByte(n, 2), LengthByte(n, 3)]
  }

  /** The 32-bit signed value with the same bits as x. */
  function ToInt32(x: nat): int
    requires x < TWO_32
  {
    if x < TWO_31 then x else x - TWO_32
  }

  /** Addition of a signed value in 64-bit unsigned arithmetic. */
  function AddWrapped(acc: size_t, v: int): size_t
    requires -TWO_31 <= v < TWO_31
  {
    if acc + v < 0 then acc + v + TWO_64 else if acc + v >= TWO_64 then acc + v - TWO_64 else acc + v
  }

  /**
   * `length += b << 8 * (3 - i)`: the byte is promoted to `int` before the shift, and the
   * signed result is converted to a 64-bit `size_t` before the addition.
   */
  function AddShifted(acc: size_t, b: byte, i: nat): size_t
    requires i < 4
  {
    AddWrapped(acc, ToInt32(Scaled(b, i)))
  }

  /** The parser's length after the first i of its four additions. */
  function DecodePrefix(bs: seq<byte>, i: nat): size_t
    requires |bs| == 4 && i <= 4
  {
    if i == 0 then 0 else AddShifted(DecodePrefix(bs, i - 1), bs[i - 1], i - 1)
  }

  function DecodeLength(bs: seq<byte>): size_t
    requires |bs| == 4
  {
    DecodePrefix(bs, 4)
  }

  /** The length the four bytes stand for when they are read as unsigned. */
  function Unsigned(bs: seq<byte>): nat
    requires |bs| == 4
  {
    Scaled(bs[0], 0) + Scaled(bs[1], 1) + Scaled(bs[2], 2) + bs[3]
  }

  lemma BigEndianValue(n: nat)
    ensures Unsigned(BigEndian(n)) == n % TWO_32
  {
    var q1, q2, q3 := n / 0x100, n / 0x1_0000, n / 0x100_0000;
    assert q2 == q1 / 0x100 && q3 == q2 / 0x100;
    assert n == 0x100 * q1 + n % 0x100;
    assert q1 == 0x100 * q2 + q1 % 0x100;
    assert q2 == 0x100 * q3 + q2 % 0x100;
    assert q3 == 0x100 * (q3 / 0x100) + q3 % 0x100;
    assert n == TWO_32 * (q3 / 0x100) + Unsigned(BigEndian(n));
  }

  lemma UnsignedBytes(bs: seq<byte>)
    requires |bs| == 4
    ensures Unsigned(bs) < TWO_32
    ensures BigEndian(Unsigned(bs)) == bs
  {
    BytesOf(bs[0], bs[1], bs[2], bs[3]);
  }

  lemma BytesOf(b0: int, b1: int, b2: int, b3: int)
    requires 0 <= b0 < 256 && 0 <= b1 < 256 && 0 <= b2 < 256 && 0 <= b3 < 256
    ensures var n := 0x100_0000 * b0 + 0x1_0000 * b1 + 0x100 * b2 + b3;
            BigEndian(n) == [b0, b1, b2, b3]
  {
    var n := 0x100_0000 * b0 + 0x1_0000 * b1 + 0x100 * b2 + b3;
    assert n / 0x100 == 0x1_0000 * b0 + 0x100 * b1 + b2;
    assert n / 0x1_0000 == 0x100 * b0 + b1;
    assert n / 0x100_0000 == b0;
  }

  /** Sign extension of the top byte is the only difference between the decoder and `Unsigned`. */
  lemma DecodeIsUnsignedBelow31Bits(bs: seq<byte>)
    requires |bs| == 4
    ensures DecodeLength(bs) == if bs[0] < 128 then Unsigned(bs) else Unsigned(bs) + (TWO_64 - TWO_32)
    ensures bs[0] < 128 <==> Unsigned(bs) < TWO_31
  {
    assert DecodePrefix(bs, 1) ==
           if bs[0] < 128 then Scaled(bs[0], 0) else Scaled(bs[0], 0) + (TWO_64 - TWO_32);
    assert DecodePrefix(bs, 2) == DecodePrefix(bs, 1) + Scaled(bs[1], 1);
    assert DecodePrefix(bs, 3) == DecodePrefix(bs, 2) + Scaled(bs[2], 2);
    assert DecodePrefix(bs, 4) == DecodePrefix(bs, 3) + bs[3];
  }

  /** What the parser makes of an encoded length: the identity below 2^31, and sign-extended above. */
  lemma LengthRoundTrip(n: nat)
    ensures DecodeLength(BigEndian(n)) ==
            if n % TWO_32 < TWO_31 then n % TWO_32 else n % TWO_32 + (TWO_64 - TWO_32)
  {
    BigEndianValue(n);
    DecodeIsUnsignedBelow31Bits(BigEndian(n));
  }

  /** The lengths that survive: those below 2^31 and, by accident, the top 2^31 values of `size_t`. */
  lemma LengthSurvives(n: nat)
    ensures DecodeLength(BigEndian(n)) == n <==> n < TWO_31 || TWO_64 - TWO_31 <= n < TWO_64
  {
    LengthRoundTrip(n);
    HighHalf(n, n / TWO_32, n % TWO_32);
  }

  lemma HighHalf(n: nat, q: nat, r: nat)
    requires n == TWO_32 * q + r && r < TWO_32
    ensures n == (if r < TWO_31 then r else r + (TWO_64 - TWO_32)) <==>
            n < TWO_31 || TWO_64 - TWO_31 <= n < TWO_64
  {
  }

  lemma SmallLength(n: nat)
    requires n < 256
    ensures BigEndian(n) == [0, 0, 0, n]
  {
  }

  lemma LengthBytesRecovered(bs: seq<byte>)
    requires |bs| == 4 && DecodeLength(bs) < TWO_31
    ensures BigEndian(DecodeLength(bs)) == bs
  {
    DecodeIsUnsignedBelow31Bits(bs);
    UnsignedBytes(bs);
  }

  // ---------------------------------------------------------------- frame header

  /** The k low bytes of n, least significant first: a `size_t` as it lies in memory when k is 8. */
  function LittleEndian(n: nat, k: nat): (bs: seq<byte>)
    ensures |bs| == k
  {
    if k == 0 then [] else [n % 256] + LittleEndian(n / 256, k - 1)
  }

  function FromLittleEndian(bs: seq<byte>): nat {
    if bs == [] then 0 else bs[0] + 256 * FromLittleEndian(bs[1..])
  }

  function Pow256(k: nat): (r: nat)
    ensures r > 0
  {
    if k == 0 then 1 else 256 * Pow256(k - 1)
  }

  lemma {:induction false} LittleEndianRoundTrip(n: nat, k: nat)
    requires n < Pow256(k)
    ensures FromLittleEndian(LittleEndian(n, k)) == n
  {
    if k > 0 {
      assert LittleEndian(n, k)[1..] == LittleEndian(n / 256, k - 1);
      LittleEndianRoundTrip(n / 256, k - 1);
    }
  }

  /** Where each byte of the header is, and what it weighs. */
  lemma {:induction false} LittleEndianAt(n: nat, k: nat, i: nat)
    requires i < k
    ensures LittleEndian(n, k)[i] == n / Pow256(i) % 256
  {
    if i > 0 {
      LittleEndianAt(n / 256, k - 1, i - 1);
      DivTwice(n, Pow256(i - 1));
    }
  }

  lemma DivTwice(n: nat, m: nat)
    requires m > 0
    ensures 256 * m > 0 && n / 256 / m == n / (256 * m)
  {
    var q, r := n / 256, n % 256;
    var q', r' := q / m, q % m;
    assert n == 256 * q + r && q == m * q' + r';
    assert 256 * (m * q' + r') == (256 * m) * q' + 256 * r';
    DivModUnique(n, 256 * m, q', 256 * r' + r);
  }

  lemma DivModUnique(n: nat, c: nat, q: nat, r: nat)
    requires n == c * q + r && r < c
    ensures n / c == q && n % c == r
  {
    var q', r' := n / c, n % c;
    assert n == c * q' + r';
    assert c * (q - q') == r' - r;
    MultipleIsFar(c, q - q');
  }

  lemma MultipleIsFar(c: nat, k: int)
    requires c > 0
    ensures k > 0 ==> c * k >= c
    ensures k < 0 ==> c * k + c <= 0
  {
  }

  const HEADER_SIZE: nat := 8

  lemma HeaderRoundTrip(n: nat)
    requires n < TWO_64
    ensures FromLittleEndian(LittleEndian(n, HEADER_SIZE)) == n
  {
    assert Pow256(4) == TWO_32;
    assert Pow256(8) == 256 * 256 * 256 * 256 * Pow256(4);
    LittleEndianRoundTrip(n, HEADER_SIZE);
  }
}
