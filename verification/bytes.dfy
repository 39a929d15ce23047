/** Fixed-width unsigned integers, network byte order and bitwise XOR,
    all on mathematical integers. */
module Bytes {

  type uint8 = x: int | 0 <= x < 0x100
  type uint16 = x: int | 0 <= x < 0x1_0000
  type uint32 = x: int | 0 <= x < 0x1_0000_0000

  /** The 16-bit value stored big-endian (network order) in two bytes (ntohs). */
  function Be16(b0: uint8, b1: uint8): (v: uint16)
    ensures b0 * 0x100 <= v < b0 * 0x100 + 0x100
  {
    b0 * 0x100 + b1
  }

  /** The two bytes that hold `v` in network order (htons). */
  function Be16Bytes(v: uint16): (bs: seq<uint8>)
    ensures |bs| == 2 && Be16(bs[0], bs[1]) == v
  {
    [v / 0x100, v % 0x100]
  }

  /** The 32-bit value stored big-endian in four bytes (ntohl). */
  function Be32(b0: uint8, b1: uint8, b2: uint8, b3: uint8): (v: uint32)
    ensures Be16(b0, b1) * 0x1_0000 <= v < Be16(b0, b1) * 0x1_0000 + 0x1_0000
  {
    Be16(b0, b1) * 0x1_0000 + Be16(b2, b3)
  }

  /** The four bytes that hold `v` in network order (htonl). */
  function Be32Bytes(v: uint32): (bs: seq<uint8>)
    ensures |bs| == 4 && Be32(bs[0], bs[1], bs[2], bs[3]) == v
  {
    Be16Bytes(v / 0x1_0000) + Be16Bytes(v % 0x1_0000)
  }

  lemma Be16BytesOfBe16(b0: uint8, b1: uint8)
    ensures Be16Bytes(Be16(b0, b1)) == [b0, b1]
  {
  }

  /** `n` rounded up to a multiple of four: `(n + 3) & ~3`. */
  function Pad4(n: nat): (p: nat)
    ensures p % 4 == 0 && n <= p < n + 4
  {
    (n + 3) / 4 * 4
  }

  function Pow2(n: nat): (p: nat)
    ensures p >= 1
  {
    if n == 0 then 1 else 2 * Pow2(n - 1)
  }

  /** Bitwise exclusive or of two naturals, one bit per level of recursion:
      addition without carries. */
  function Xor(a: nat, b: nat): nat
    decreases a + b
  {
    if a == 0 && b == 0 then 0 else 2 * Xor(a / 2, b / 2) + (a % 2 + b % 2) % 2
  }

  /** The recursive equation of Xor holds without the base-case guard. */
  lemma XorUnfold(a: nat, b: nat)
    ensures Xor(a, b) == 2 * Xor(a / 2, b / 2) + (a % 2 + b % 2) % 2
  {
  }

  /** The quotient and remainder by two of an XOR are the XOR of the
      halves and the parity of the low bits. */
  lemma XorHalves(a: nat, k: nat)
    ensures Xor(a, k) / 2 == Xor(a / 2, k / 2) && Xor(a, k) % 2 == (a % 2 + k % 2) % 2
  {
    XorUnfold(a, k);
  }

  /** Adding the same bit twice modulo 2 cancels it. */
  lemma ParityCancel(x: nat, y: nat)
    requires x < 2 && y < 2
    ensures ((x + y) % 2 + y) % 2 == x
  {
  }

  /** XOR with the same key twice gives back the original value. */
  lemma {:induction false} XorInvolution(a: nat, k: nat)
    ensures Xor(Xor(a, k), k) == a
    decreases a + k
  {
    if a == 0 && k == 0 {
    } else {
      var c := Xor(a, k);
      assert c / 2 == Xor(a / 2, k / 2) && c % 2 == (a % 2 + k % 2) % 2 by {
        XorHalves(a, k);
      }
      assert Xor(c / 2, k / 2) == a / 2 by {
        XorInvolution(a / 2, k / 2);
      }
      assert (c % 2 + k % 2) % 2 == a % 2 by {
        ParityCancel(a % 2, k % 2);
      }
      assert Xor(c, k) == 2 * (a / 2) + a % 2 by {
        XorUnfold(c, k);
      }
    }
  }

  /** XOR of two n-bit values is an n-bit value. */
  lemma {:induction false} XorBound(a: nat, b: nat, n: nat)
    requires a < Pow2(n) && b < Pow2(n)
    ensures Xor(a, b) < Pow2(n)
  {
    if n == 0 {
      assert a == 0 && b == 0;
    } else {
      XorBound(a / 2, b / 2, n - 1);
      XorUnfold(a, b);
    }
  }

  lemma Pow2Width16()
    ensures Pow2(16) == 0x1_0000
  {
    assert Pow2(4) == 0x10;
    assert Pow2(8) == 0x100;
    assert Pow2(12) == 0x1000;
  }

  /** XOR of two 16-bit values (`uint16_t ^ uint16_t`). */
  function Xor16(a: uint16, k: uint16): uint16
  {
    Pow2Width16();
    XorBound(a, k, 16);
    Xor(a, k)
  }

  /** XOR-ing a 16-bit value twice with the same key gives it back. */
  lemma Xor16Involution(a: uint16, k: uint16)
    ensures Xor16(Xor16(a, k), k) == a
  {
    XorInvolution(a, k);
  }

  /** XOR of two 32-bit values (`uint32_t ^ uint32_t`). XOR acts on every
      bit on its own, so it is computed on the two 16-bit halves apart. */
  function Xor32(a: uint32, k: uint32): uint32
  {
    Xor16(a / 0x1_0000, k / 0x1_0000) * 0x1_0000 + Xor16(a % 0x1_0000, k % 0x1_0000)
  }

  /** XOR-ing a 32-bit value twice with the same key gives it back. */
  lemma Xor32Involution(a: uint32, k: uint32)
    ensures Xor32(Xor32(a, k), k) == a
  {
    var r := Xor32(a, k);
    assert r / 0x1_0000 == Xor16(a / 0x1_0000, k / 0x1_0000);
    assert r % 0x1_0000 == Xor16(a % 0x1_0000, k % 0x1_0000);
    Xor16Involution(a / 0x1_0000, k / 0x1_0000);
    Xor16Involution(a % 0x1_0000, k % 0x1_0000);
  }

  /** Port 54321 (0xD431) XOR-ed with `STUN_MAGIC_COOKIE >> 16`, bit by bit. */
  lemma PortXorExample()
    ensures Xor(0xF523, 0x2112) == 0xD431
  {
    XorUnfold(0x1, 0x0);
    assert Xor(0x1, 0x0) == 0x1;
    XorUnfold(0x3, 0x0);
    assert Xor(0x3, 0x0) == 0x3;
    XorUnfold(0x7, 0x1);
    assert Xor(0x7, 0x1) == 0x6;
    XorUnfold(0xF, 0x2);
    assert Xor(0xF, 0x2) == 0xD;
    XorUnfold(0x1E, 0x4);
    assert Xor(0x1E, 0x4) == 0x1A;
    XorUnfold(0x3D, 0x8);
    assert Xor(0x3D, 0x8) == 0x35;
    XorUnfold(0x7A, 0x10);
    assert Xor(0x7A, 0x10) == 0x6A;
    XorUnfold(0xF5, 0x21);
    assert Xor(0xF5, 0x21) == 0xD4;
    XorUnfold(0x1EA, 0x42);
    assert Xor(0x1EA, 0x42) == 0x1A8;
    XorUnfold(0x3D4, 0x84);
    assert Xor(0x3D4, 0x84) == 0x350;
    XorUnfold(0x7A9, 0x108);
    assert Xor(0x7A9, 0x108) == 0x6A1;
    XorUnfold(0xF52, 0x211);
    assert Xor(0xF52, 0x211) == 0xD43;
    XorUnfold(0x1EA4, 0x422);
    assert Xor(0x1EA4, 0x422) == 0x1A86;
    XorUnfold(0x3D48, 0x844);
    assert Xor(0x3D48, 0x844) == 0x350C;
    XorUnfold(0x7A91, 0x1089);
    assert Xor(0x7A91, 0x1089) == 0x6A18;
    XorUnfold(0xF523, 0x2112);
    assert Xor(0xF523, 0x2112) == 0xD431;
  }

  /** The high half of 203.0.113.5 (0xCB00) XOR-ed with that of the cookie. */
  lemma HighXorExample()
    ensures Xor(0xEA12, 0x2112) == 0xCB00
  {
    XorUnfold(0x1, 0x0);
    assert Xor(0x1, 0x0) == 0x1;
    XorUnfold(0x3, 0x0);
    assert Xor(0x3, 0x0) == 0x3;
    XorUnfold(0x7, 0x1);
    assert Xor(0x7, 0x1) == 0x6;
    XorUnfold(0xE, 0x2);
    assert Xor(0xE, 0x2) == 0xC;
    XorUnfold(0x1D, 0x4);
    assert Xor(0x1D, 0x4) == 0x19;
    XorUnfold(0x3A, 0x8);
    assert Xor(0x3A, 0x8) == 0x32;
    XorUnfold(0x75, 0x10);
    assert Xor(0x75, 0x10) == 0x65;
    XorUnfold(0xEA, 0x21);
    assert Xor(0xEA, 0x21) == 0xCB;
    XorUnfold(0x1D4, 0x42);
    assert Xor(0x1D4, 0x42) == 0x196;
    XorUnfold(0x3A8, 0x84);
    assert Xor(0x3A8, 0x84) == 0x32C;
    XorUnfold(0x750, 0x108);
    assert Xor(0x750, 0x108) == 0x658;
    XorUnfold(0xEA1, 0x211);
    assert Xor(0xEA1, 0x211) == 0xCB0;
    XorUnfold(0x1D42, 0x422);
    assert Xor(0x1D42, 0x422) == 0x1960;
    XorUnfold(0x3A84, 0x844);
    assert Xor(0x3A84, 0x844) == 0x32C0;
    XorUnfold(0x7509, 0x1089);
    assert Xor(0x7509, 0x1089) == 0x6580;
    XorUnfold(0xEA12, 0x2112);
    assert Xor(0xEA12, 0x2112) == 0xCB00;
  }

  /** The low half of 203.0.113.5 (0x7105) XOR-ed with that of the cookie. */
  lemma LowXorExample()
    ensures Xor(0xD547, 0xA442) == 0x7105
  {
    XorUnfold(0x1, 0x1);
    assert Xor(0x1, 0x1) == 0x0;
    XorUnfold(0x3, 0x2);
    assert Xor(0x3, 0x2) == 0x1;
    XorUnfold(0x6, 0x5);
    assert Xor(0x6, 0x5) == 0x3;
    XorUnfold(0xD, 0xA);
    assert Xor(0xD, 0xA) == 0x7;
    XorUnfold(0x1A, 0x14);
    assert Xor(0x1A, 0x14) == 0xE;
    XorUnfold(0x35, 0x29);
    assert Xor(0x35, 0x29) == 0x1C;
    XorUnfold(0x6A, 0x52);
    assert Xor(0x6A, 0x52) == 0x38;
    XorUnfold(0xD5, 0xA4);
    assert Xor(0xD5, 0xA4) == 0x71;
    XorUnfold(0x1AA, 0x148);
    assert Xor(0x1AA, 0x148) == 0xE2;
    XorUnfold(0x355, 0x291);
    assert Xor(0x355, 0x291) == 0x1C4;
    XorUnfold(0x6AA, 0x522);
    assert Xor(0x6AA, 0x522) == 0x388;
    XorUnfold(0xD54, 0xA44);
    assert Xor(0xD54, 0xA44) == 0x710;
    XorUnfold(0x1AA8, 0x1488);
    assert Xor(0x1AA8, 0x1488) == 0xE20;
    XorUnfold(0x3551, 0x2910);
    assert Xor(0x3551, 0x2910) == 0x1C41;
    XorUnfold(0x6AA3, 0x5221);
    assert Xor(0x6AA3, 0x5221) == 0x3882;
    XorUnfold(0xD547, 0xA442);
    assert Xor(0xD547, 0xA442) == 0x7105;
  }

  /** The worked XOR-MAPPED-ADDRESS for 203.0.113.5 port 54321: the wire
      holds the port as F5 23, which XOR-ed with 21 12 is 54321. */
  lemma XorPortExample()
    ensures Xor16(0xF523, 0x2112) == 54321
  {
    PortXorExample();
  }

  /** The address of the same example: EA 12 D5 47 XOR-ed with the cookie
      is CB 00 71 05, 203.0.113.5. */
  lemma XorAddressExample()
    ensures Xor32(0xEA12D547, 0x2112A442) == 0xCB00_7105
  {
    assert Xor16(0xEA12, 0x2112) == 0xCB00 by { HighXorExample(); }
    assert Xor16(0xD547, 0xA442) == 0x7105 by { LowXorExample(); }
    assert Xor32(0xEA12D547, 0x2112A442) == Xor16(0xEA12, 0x2112) * 0x1_0000 + Xor16(0xD547, 0xA442);
  }
}
