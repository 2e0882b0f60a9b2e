/** Byte-level vocabulary shared by the save, ROM and netplay models:
    bytes and fixed-width unsigned integers as bounded `int`s, little-endian
    reads and writes, byte sums and the bitwise XOR of two bytes. */
module Bytes {

  type byte = x: int | 0 <= x < 0x100
  type u16 = x: int | 0 <= x < 0x1_0000
  type u32 = x: int | 0 <= x < 0x1_0000_0000

  datatype Option<T> = None | Some(value: T)

  datatype Result<T, E> = Ok(value: T) | Err(error: E)

  /** A run of `n` zero bytes (a freshly allocated `vec![0; n]`). */
  function Zeros(n: nat): (r: seq<byte>)
    ensures |r| == n
    ensures forall i :: 0 <= i < n ==> r[i] == 0
  {
    seq(n, _ => 0)
  }

  /** The bytes of an ASCII string literal such as `b"ROCKMAN EXE 20010120"`. */
  function Ascii(s: string): (r: seq<byte>)
    requires forall i :: 0 <= i < |s| ==> s[i] as int < 0x100
    ensures |r| == |s|
    ensures forall i :: 0 <= i < |s| ==> r[i] == s[i] as int
  {
    seq(|s|, i requires 0 <= i < |s| => s[i] as int)
  }

  // ---------------------------------------------------------------------
  // Little-endian integers

  function LeU16(s: seq<byte>, o: nat): (r: u16)
    requires o + 2 <= |s|
  {
    s[o] as int + 0x100 * s[o + 1] as int
  }

  function LeU32(s: seq<byte>, o: nat): (r: u32)
    requires o + 4 <= |s|
  {
    s[o] as int + 0x100 * (s[o + 1] as int + 0x100 * (s[o + 2] as int + 0x100 * s[o + 3] as int))
  }

  /** `byteorder::LittleEndian::write_u32` into a fresh 4-byte buffer. */
  function LeBytes32(v: u32): (r: seq<byte>)
    ensures |r| == 4
    ensures LeU32(r, 0) == v
    ensures r[0] == v % 0x100
  {
    [v % 0x100, (v / 0x100) % 0x100, (v / 0x1_0000) % 0x100, v / 0x100_0000]
  }

  lemma DivModByte(a: byte, k: nat)
    ensures (a + 0x100 * k) % 0x100 == a
    ensures (a + 0x100 * k) / 0x100 == k
  {
  }

  /** Reading a word and writing it back reproduces the four bytes. */
  lemma {:induction false} LeBytes32OfLeU32(s: seq<byte>, o: nat)
    requires o + 4 <= |s|
    ensures LeBytes32(LeU32(s, o)) == s[o..o + 4]
  {
    var v := LeU32(s, o);
    var k2 := s[o + 2] as int + 0x100 * s[o + 3] as int;
    var k1 := s[o + 1] as int + 0x100 * k2;
    DivModByte(s[o], k1);
    DivModByte(s[o + 1], k2);
    DivModByte(s[o + 2], s[o + 3]);
    assert v / 0x1_0000 == (v / 0x100) / 0x100;
    assert v / 0x100_0000 == ((v / 0x100) / 0x100) / 0x100;
  }

  /** The low byte of a little-endian word (`mask as u8`) is its first byte. */
  lemma LeU32LowByte(s: seq<byte>, o: nat)
    requires o + 4 <= |s|
    ensures LeU32(s, o) % 0x100 == s[o]
  {
    DivModByte(s[o], s[o + 1] as int + 0x100 * (s[o + 2] as int + 0x100 * s[o + 3] as int));
  }

  // ---------------------------------------------------------------------
  // Sums of bytes

  function Sum(s: seq<byte>): (r: nat)
  {
    if s == [] then 0 else Sum(s[..|s| - 1]) + s[|s| - 1]
  }

  lemma {:induction false} SumAppend(a: seq<byte>, b: seq<byte>)
    ensures Sum(a + b) == Sum(a) + Sum(b)
    decreases |b|
  {
    if b == [] {
      assert a + b == a;
    } else {
      assert (a + b)[..|a + b| - 1] == a + b[..|b| - 1];
      SumAppend(a, b[..|b| - 1]);
    }
  }

  lemma {:induction false} SumBound(s: seq<byte>)
    ensures Sum(s) <= 0xff * |s|
    decreases |s|
  {
    if s != [] {
      SumBound(s[..|s| - 1]);
    }
  }

  /** Splitting a buffer around a 4-byte word at `o`. */
  lemma SumAroundWord(s: seq<byte>, o: nat)
    requires o + 4 <= |s|
    ensures Sum(s) == Sum(s[..o]) + Sum(s[o..o + 4]) + Sum(s[o + 4..])
  {
    assert s == s[..o] + s[o..o + 4] + s[o + 4..];
    SumAppend(s[..o] + s[o..o + 4], s[o + 4..]);
    SumAppend(s[..o], s[o..o + 4]);
  }

  // ---------------------------------------------------------------------
  // Bitwise XOR, bit by bit from the least significant end

  function Pow2(n: nat): (r: nat)
    ensures r >= 1
  {
    if n == 0 then 1 else 2 * Pow2(n - 1)
  }

  /** XOR of the low `n` bits of `a` and `b`. */
  function XorBits(a: nat, b: nat, n: nat): (r: nat)
    ensures r < Pow2(n)
  {
    if n == 0 then 0 else (a % 2 + b % 2) % 2 + 2 * XorBits(a / 2, b / 2, n - 1)
  }

  /** `a ^ b` on two `u8` values. */
  function Xor(a: byte, b: byte): (r: byte)
  {
    assert Pow2(8) == 0x100;
    XorBits(a, b, 8)
  }

  lemma {:induction false} XorBitsInvolutive(a: nat, m: nat, n: nat)
    requires a < Pow2(n)
    ensures XorBits(XorBits(a, m, n), m, n) == a
  {
    if n > 0 {
      var bit := (a % 2 + m % 2) % 2;
      var rest := XorBits(a / 2, m / 2, n - 1);
      var x := XorBits(a, m, n);
      assert x == bit + 2 * rest;
      assert x % 2 == bit && x / 2 == rest;
      assert (bit + m % 2) % 2 == a % 2;
      XorBitsInvolutive(a / 2, m / 2, n - 1);
      assert XorBits(x, m, n) == a % 2 + 2 * (a / 2);
    }
  }

  /** XOR with the same byte twice is the identity. */
  lemma XorInvolutive(a: byte, m: byte)
    ensures Xor(Xor(a, m), m) == a
  {
    assert Pow2(8) == 0x100;
    XorBitsInvolutive(a, m, 8);
  }

  lemma {:induction false} XorBitsZero(a: nat, n: nat)
    requires a < Pow2(n)
    ensures XorBits(a, 0, n) == a
  {
    if n > 0 {
      XorBitsZero(a / 2, n - 1);
    }
  }

  /** A zero mask byte leaves a byte unchanged. */
  lemma XorZero(a: byte)
    ensures Xor(a, 0) == a
  {
    assert Pow2(8) == 0x100;
    XorBitsZero(a, 8);
  }
}
