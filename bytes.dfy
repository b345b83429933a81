/**
 * Byte sequences as the radar firmware and the decoders see them: unsigned
 * bytes, little-endian multi-byte integers, and the two 8-bit checksums used
 * by the wire dialects (an additive one and an exclusive-or one).
 */
module Bytes {
  /** An unsigned 8-bit value (`uint8_t`). */
  type byte = x: int | 0 <= x < 0x100
  type uint16 = x: int | 0 <= x < 0x1_0000
  type uint32 = x: int | 0 <= x < 0x1_0000_0000
  type int16 = x: int | -0x8000 <= x < 0x8000

  const TWO_32: int := 0x1_0000_0000

  /** The bytes of an ASCII string literal (code points are taken modulo 256). */
  function Ascii(s: string): (r: seq<byte>)
    ensures |r| == |s|
    ensures forall i :: 0 <= i < |s| ==> r[i] == s[i] as int % 256
  {
    if s == [] then [] else [s[0] as int % 256] + Ascii(s[1..])
  }

  /** The bytes of joined texts are the joined bytes. */
  lemma {:induction false} AsciiAppend(s: string, t: string)
    ensures Ascii(s + t) == Ascii(s) + Ascii(t)
    decreases |s|
  {
    hide Ascii;
    if s == [] {
      assert s + t == t;
      AsciiEmpty();
    } else {
      AsciiAppend(s[1..], t);
      assert (s + t)[0] == s[0] && (s + t)[1..] == s[1..] + t;
      AsciiCons(s);
      AsciiCons(s + t);
    }
  }

  lemma AsciiEmpty()
    ensures Ascii([]) == []
  {
  }

  lemma AsciiCons(s: string)
    requires s != []
    ensures Ascii(s) == [s[0] as int % 256] + Ascii(s[1..])
  {
  }

  /** 256 to the power n. */
  function Pow256(n: nat): (r: nat)
    ensures r > 0
  {
    if n == 0 then 1 else 256 * Pow256(n - 1)
  }

  /** `read_uint16`: two bytes at `at`, host order fixed to little-endian. */
  function ReadUint16(buf: seq<byte>, at: nat): uint16
    requires at + 2 <= |buf|
  {
    buf[at] as int + 0x100 * buf[at + 1] as int
  }

  /** `read_uint32`: four bytes at `at`, host order fixed to little-endian. */
  function ReadUint32(buf: seq<byte>, at: nat): uint32
    requires at + 4 <= |buf|
  {
    buf[at] as int + 0x100 * buf[at + 1] as int + 0x1_0000 * buf[at + 2] as int + 0x100_0000 * buf[at + 3] as int
  }

  /** The four little-endian bytes of `v`, as the tests' `push_uint32` lays them out. */
  function Uint32Bytes(v: uint32): (r: seq<byte>)
    ensures |r| == 4
  {
    [v % 0x100, v / 0x100 % 0x100, v / 0x1_0000 % 0x100, v / 0x100_0000]
  }

  /** Reading back the bytes that `push_uint32` lays out gives the value again. */
  lemma ReadUint32OfBytes(v: uint32, prefix: seq<byte>, suffix: seq<byte>)
    ensures ReadUint32(prefix + Uint32Bytes(v) + suffix, |prefix|) == v
  {
    var buf := prefix + Uint32Bytes(v) + suffix;
    var p := |prefix|;
    assert buf[p..p + 4] == Uint32Bytes(v);
    var a := v / 0x100;
    var b := a / 0x100;
    var c := b / 0x100;
    assert v == a * 0x100 + v % 0x100;
    assert a == b * 0x100 + a % 0x100;
    assert b == c * 0x100 + b % 0x100;
    assert b == v / 0x1_0000;
    assert c == v / 0x100_0000;
  }

  /** A window of a window is a window of the whole. */
  lemma Window(s: seq<byte>, a: nat, n: nat, lo: nat, hi: nat)
    requires a + n <= |s| && lo <= hi <= n
    ensures s[a..a + n][lo..hi] == s[a + lo..a + hi]
  {
    var w := s[a..a + n];
    forall i | lo <= i < hi
      ensures w[i] == s[a + i]
    {
    }
  }

  /** Words laid out one after another by `push_uint32`. */
  function WordsBytes(ws: seq<uint32>): (r: seq<byte>)
    ensures |r| == 4 * |ws|
  {
    if ws == [] then [] else WordsBytes(ws[..|ws| - 1]) + Uint32Bytes(ws[|ws| - 1])
  }

  lemma {:induction false} WordsBytesAt(ws: seq<uint32>, k: nat)
    requires k < |ws|
    ensures WordsBytes(ws)[4 * k..4 * k + 4] == Uint32Bytes(ws[k])
  {
    var init := ws[..|ws| - 1];
    if k < |ws| - 1 {
      WordsBytesAt(init, k);
      assert init[k] == ws[k];
      assert WordsBytes(ws)[4 * k..4 * k + 4] == WordsBytes(init)[4 * k..4 * k + 4];
    }
  }

  /** A word read from four bytes laid out by `push_uint32`, wherever they sit in the buffer. */
  lemma ReadUint32Window(buf: seq<byte>, at: nat, v: uint32)
    requires at + 4 <= |buf| && buf[at..at + 4] == Uint32Bytes(v)
    ensures ReadUint32(buf, at) == v
  {
    ReadUint32OfBytes(v, buf[..at], buf[at + 4..]);
    assert buf[..at] + Uint32Bytes(v) + buf[at + 4..] == buf;
  }

  /** 2 to the power n. */
  function Pow2(n: nat): (r: nat)
    ensures r >= 1
  {
    if n == 0 then 1 else 2 * Pow2(n - 1)
  }

  /** Bitwise exclusive-or of the low `n` bits of `a` and `b`, bit by bit from the least significant. */
  function XorBits(a: nat, b: nat, n: nat): (r: nat)
    ensures r < Pow2(n)
  {
    if n == 0 then 0 else (a % 2 + b % 2) % 2 + 2 * XorBits(a / 2, b / 2, n - 1)
  }

  /** Bitwise exclusive-or of two bytes (`^` on `uint8_t`). */
  function Xor(a: byte, b: byte): byte
  {
    assert Pow2(8) == 0x100;
    XorBits(a, b, 8)
  }

  /** Once both operands are exhausted the remaining bits are zero. */
  lemma XorBitsOfZeros(n: nat)
    ensures XorBits(0, 0, n) == 0
  {
  }

  lemma {:induction false} XorBitsCancel(a: nat, b: nat, c: nat, n: nat)
    requires b < Pow2(n) && c < Pow2(n)
    requires XorBits(a, b, n) == XorBits(a, c, n)
    ensures b == c
  {
    hide XorBits;
    if n > 0 {
      XorBitsStep(a, b, n);
      XorBitsStep(a, c, n);
      assert b % 2 == c % 2;
      XorBitsCancel(a / 2, b / 2, c / 2, n - 1);
    }
  }

  lemma XorBitsStep(a: nat, b: nat, n: nat)
    requires n > 0
    ensures XorBits(a, b, n) == (a % 2 + b % 2) % 2 + 2 * XorBits(a / 2, b / 2, n - 1)
    ensures XorBits(a / 2, b / 2, n - 1) < Pow2(n - 1) && Pow2(n) == 2 * Pow2(n - 1)
  {
  }

  lemma {:induction false} XorBitsCommutes(a: nat, b: nat, n: nat)
    ensures XorBits(a, b, n) == XorBits(b, a, n)
  {
    if n > 0 {
      XorBitsCommutes(a / 2, b / 2, n - 1);
    }
  }

  /** Exclusive-or with a fixed byte, on either side, is injective. */
  lemma XorCancel(a: byte, b: byte, c: byte)
    ensures Xor(a, b) == Xor(a, c) <==> b == c
    ensures Xor(b, a) == Xor(c, a) <==> b == c
  {
    assert Pow2(8) == 0x100;
    XorBitsCommutes(a, b, 8);
    XorBitsCommutes(a, c, 8);
    if Xor(a, b) == Xor(a, c) {
      XorBitsCancel(a, b, c, 8);
    }
  }

  /** Bitwise or of the low `n` bits of `a` and `b`, bit by bit from the least significant. */
  function OrBits(a: nat, b: nat, n: nat): (r: nat)
    ensures r < Pow2(n)
  {
    if n == 0 then 0 else (if a % 2 == 1 || b % 2 == 1 then 1 else 0) + 2 * OrBits(a / 2, b / 2, n - 1)
  }

  lemma {:induction false} OrBitsCommutes(a: nat, b: nat, n: nat)
    ensures OrBits(a, b, n) == OrBits(b, a, n)
  {
    if n > 0 {
      OrBitsCommutes(a / 2, b / 2, n - 1);
    }
  }

  /** Or-ing a value shifted left by four keeps the other operand's low four bits as they are. */
  lemma OrBitsShiftFour(a: nat, b: nat, n: nat)
    ensures OrBits(16 * a, b, n + 4) == b % 16 + 16 * OrBits(a, b / 16, n)
  {
    assert OrBits(16 * a, b, n + 4) == b % 2 + 2 * OrBits(8 * a, b / 2, n + 3);
    assert OrBits(8 * a, b / 2, n + 3) == b / 2 % 2 + 2 * OrBits(4 * a, b / 4, n + 2);
    assert OrBits(4 * a, b / 4, n + 2) == b / 4 % 2 + 2 * OrBits(2 * a, b / 8, n + 1);
    assert OrBits(2 * a, b / 8, n + 1) == b / 8 % 2 + 2 * OrBits(a, b / 16, n);
  }

  /** The checksum loops' accumulator: `acc ^= s[i]` over `s`, left to right. */
  function XorFrom(acc: byte, s: seq<byte>): byte
  {
    if s == [] then acc else Xor(XorFrom(acc, s[..|s| - 1]), s[|s| - 1])
  }

  /** The accumulator carries over from one part of the input to the next. */
  lemma {:induction false} XorFromAppend(acc: byte, a: seq<byte>, b: seq<byte>)
    ensures XorFrom(acc, a + b) == XorFrom(XorFrom(acc, a), b)
    decreases |b|
  {
    if b == [] {
      assert a + b == a;
    } else {
      assert (a + b)[..|a + b| - 1] == a + b[..|b| - 1];
      XorFromAppend(acc, a, b[..|b| - 1]);
    }
  }

  /** The first byte is folded in first. */
  lemma XorFromCons(acc: byte, x: byte, t: seq<byte>)
    ensures XorFrom(acc, [x] + t) == XorFrom(Xor(acc, x), t)
  {
    XorFromAppend(acc, [x], t);
    assert [x][..0] == [];
  }

  /** Four bytes folded in turn. */
  lemma XorFromFour(acc: byte, a: byte, b: byte, c: byte, d: byte)
    ensures XorFrom(acc, [a, b, c, d]) == Xor(Xor(Xor(Xor(acc, a), b), c), d)
  {
    assert [a, b, c, d][..3] == [a, b, c];
    assert [a, b, c][..2] == [a, b];
    assert [a, b][..1] == [a];
    assert [a][..0] == [];
    assert XorFrom(acc, [a]) == Xor(acc, a);
    assert XorFrom(acc, [a, b]) == Xor(Xor(acc, a), b);
    assert XorFrom(acc, [a, b, c]) == Xor(Xor(Xor(acc, a), b), c);
  }

  /** Exclusive-or of all bytes, starting from 0. */
  function XorOf(s: seq<byte>): byte
  {
    XorFrom(0, s)
  }

  /** The `uint8_t sum; sum += b` accumulator of the additive checksum. */
  function SumOf(s: seq<byte>): byte
  {
    if s == [] then 0 else (SumOf(s[..|s| - 1]) + s[|s| - 1]) % 0x100
  }

  /** The exact (unbounded) sum of the byte values. */
  function SumInt(s: seq<byte>): nat
  {
    if s == [] then 0 else SumInt(s[..|s| - 1]) + s[|s| - 1]
  }

  /** Each byte of `s` adds itself to the exact sum of the bytes before it. */
  lemma SumIntPrefixStep(s: seq<byte>, k: nat)
    requires k < |s|
    ensures SumInt(s[..0]) == 0
    ensures SumInt(s[..k + 1]) == SumInt(s[..k]) + s[k]
  {
    assert s[..0] == [];
    assert s[..k + 1][..k] == s[..k];
  }

  /** The 8-bit wrapping sum is the true sum modulo 256. */
  lemma {:induction false} SumOfIsSumMod256(s: seq<byte>)
    ensures SumOf(s) == SumInt(s) % 0x100
  {
    if s != [] {
      var init := s[..|s| - 1];
      SumOfIsSumMod256(init);
      ModAddLeft(SumInt(init), s[|s| - 1]);
    }
  }

  lemma ModAddLeft(x: nat, y: nat)
    ensures (x % 0x100 + y) % 0x100 == (x + y) % 0x100
  {
    var q := x / 0x100;
    assert x == q * 0x100 + x % 0x100;
    assert x + y == q * 0x100 + (x % 0x100 + y);
  }

  /** A byte seen as the two's-complement `int8_t` it encodes. */
  function Signed(b: byte): (r: int)
    ensures -128 <= r < 128
    ensures (r + 256) % 256 == b
  {
    if b < 0x80 then b else b - 256
  }
}
