/**
 * Machine-level representation shared by the allocator model: bytes, the
 * fixed-width unsigned integers of the C++ source, little-endian encoding of
 * integer fields, and NUL-terminated C strings held in fixed-size buffers.
 */
module Bytes {

  const TWO_32: int := 0x1_0000_0000
  const TWO_64: int := 0x1_0000_0000_0000_0000

  type byte = x: int | 0 <= x < 256
  type uint32 = x: int | 0 <= x < 0x1_0000_0000
  /** Also the type of addresses: the model assumes a 64-bit platform. */
  type uint64 = x: int | 0 <= x < 0x1_0000_0000_0000_0000

  /** The characters of a C string: never a NUL byte, which would end it. */
  type CString = s: seq<byte> | 0 !in s

  /**
   * uint32_t arithmetic: the result of an addition or subtraction, brought
   * back into range by whole multiples of 2^32.
   */
  function Wrap32(x: int): uint32
    decreases if x < 0 then TWO_32 - x else x
  {
    if x < 0 then Wrap32(x + TWO_32) else if x < TWO_32 then x else Wrap32(x - TWO_32)
  }

  /** Wrapping is the remainder modulo 2^32. */
  lemma {:induction false} Wrap32Mod(x: int)
    ensures Wrap32(x) == x % 0x1_0000_0000
    decreases if x < 0 then TWO_32 - x else x
  {
    if x < 0 {
      Wrap32Mod(x + TWO_32);
    } else if x >= TWO_32 {
      Wrap32Mod(x - TWO_32);
    }
  }

  /** Wrapping an intermediate result does not change the wrapped final result. */
  lemma Wrap32Add(a: int, b: int)
    ensures Wrap32(Wrap32(a) + b) == Wrap32(a + b)
  {
    Wrap32Mod(a);
    Wrap32Mod(a + b);
    Wrap32Mod(Wrap32(a) + b);
    var q := a / 0x1_0000_0000;
    assert a == q * 0x1_0000_0000 + a % 0x1_0000_0000;
  }

  /** Adding whole multiples of 2^32 does not change a wrapped result. */
  lemma Wrap32Multiple(a: int, k: int)
    ensures Wrap32(a + k * TWO_32) == Wrap32(a)
  {
    Wrap32Mod(a);
    Wrap32Mod(a + k * TWO_32);
    var q := a / 0x1_0000_0000;
    assert a + k * 0x1_0000_0000 == (q + k) * 0x1_0000_0000 + a % 0x1_0000_0000;
  }

  /** A counter that holds the wrapped value of `s` holds that of `s + d` after `d` is added to it. */
  lemma Wrap32Step(c: uint32, s: int, d: int)
    requires c == Wrap32(s)
    ensures Wrap32(c + d) == Wrap32(s + d)
  {
    Wrap32Add(s, d);
  }

  /** Subtracting a wrapped value wraps like subtracting the value itself. */
  lemma Wrap32Sub(a: int, b: int)
    ensures Wrap32(a - Wrap32(b)) == Wrap32(a - b)
  {
    Wrap32Mod(b);
    var q := b / 0x1_0000_0000;
    assert b == q * 0x1_0000_0000 + Wrap32(b);
    assert a - Wrap32(b) == (a - b) + q * TWO_32;
    Wrap32Multiple(a - b, q);
  }

  /** uint32_t `c + d`: the sum, less 2^32 when it does not fit. */
  function Add32(c: uint32, d: uint32): uint32
  {
    if c + d < TWO_32 then c + d else c + d - TWO_32
  }

  /** uint32_t `c - d`: the difference, plus 2^32 when it is negative. */
  function Sub32(c: uint32, d: uint32): uint32
  {
    if d <= c then c - d else c - d + TWO_32
  }

  /** The uint32_t sum is the wrapped sum. */
  lemma Add32Wraps(c: uint32, d: uint32)
    ensures Add32(c, d) == Wrap32(c + d)
  {
    if c + d >= TWO_32 {
      assert Wrap32(c + d - TWO_32) == c + d - TWO_32;
    }
  }

  /** The uint32_t difference is the wrapped difference. */
  lemma Sub32Wraps(c: uint32, d: uint32)
    ensures Sub32(c, d) == Wrap32(c - d)
  {
    if c < d {
      assert Wrap32(c - d + TWO_32) == c - d + TWO_32;
    }
  }

  function Pow256(n: nat): (r: nat)
    ensures r > 0
  {
    if n == 0 then 1 else 256 * Pow256(n - 1)
  }

  lemma Pow256Widths()
    ensures Pow256(4) == TWO_32 && Pow256(8) == TWO_64
  {
    assert Pow256(2) == 0x1_0000;
    assert Pow256(4) == 0x1_0000_0000;
    assert Pow256(6) == 0x1_0000_0000_0000;
  }

  /** The `width` bytes that hold `x` in memory on a little-endian machine. */
  function EncodeLE(x: nat, width: nat): (r: seq<byte>)
    requires x < Pow256(width)
    ensures |r| == width
  {
    if width == 0 then [] else [x % 256] + EncodeLE(x / 256, width - 1)
  }

  /** The unsigned integer a little-endian machine reads from `bs`. */
  function DecodeLE(bs: seq<byte>): (r: nat)
    ensures r < Pow256(|bs|)
  {
    if bs == [] then 0 else bs[0] + 256 * DecodeLE(bs[1..])
  }

  lemma {:induction false} DecodeEncodeLE(x: nat, width: nat)
    requires x < Pow256(width)
    ensures DecodeLE(EncodeLE(x, width)) == x
  {
    if width > 0 {
      DecodeEncodeLE(x / 256, width - 1);
      assert EncodeLE(x, width)[1..] == EncodeLE(x / 256, width - 1);
    }
  }

  lemma {:induction false} EncodeDecodeLE(bs: seq<byte>)
    ensures EncodeLE(DecodeLE(bs), |bs|) == bs
  {
    if bs != [] {
      var d := DecodeLE(bs[1..]);
      EncodeDecodeLE(bs[1..]);
      assert (bs[0] + 256 * d) % 256 == bs[0];
      assert (bs[0] + 256 * d) / 256 == d;
      assert bs == [bs[0]] + bs[1..];
    }
  }

  function EncodeU32(x: uint32): (r: seq<byte>)
    ensures |r| == 4
  {
    Pow256Widths();
    EncodeLE(x, 4)
  }

  function DecodeU32(bs: seq<byte>): uint32
    requires |bs| == 4
  {
    Pow256Widths();
    DecodeLE(bs)
  }

  function EncodeU64(x: uint64): (r: seq<byte>)
    ensures |r| == 8
  {
    Pow256Widths();
    EncodeLE(x, 8)
  }

  function DecodeU64(bs: seq<byte>): uint64
    requires |bs| == 8
  {
    Pow256Widths();
    DecodeLE(bs)
  }

  /** A uint32_t field stored and loaded again is the same integer, and the other way round. */
  lemma U32RoundTrip(x: uint32, bs: seq<byte>)
    requires |bs| == 4
    ensures DecodeU32(EncodeU32(x)) == x
    ensures EncodeU32(DecodeU32(bs)) == bs
  {
    Pow256Widths();
    DecodeEncodeLE(x, 4);
    EncodeDecodeLE(bs);
  }

  /** The same for a 64-bit field (a pointer). */
  lemma U64RoundTrip(x: uint64, bs: seq<byte>)
    requires |bs| == 8
    ensures DecodeU64(EncodeU64(x)) == x
    ensures EncodeU64(DecodeU64(bs)) == bs
  {
    Pow256Widths();
    DecodeEncodeLE(x, 8);
    EncodeDecodeLE(bs);
  }

  function Zeros(n: nat): (r: seq<byte>)
    ensures |r| == n && forall i :: 0 <= i < n ==> r[i] == 0
  {
    if n == 0 then [] else [0] + Zeros(n - 1)
  }

  /**
   * strncpy of a C string into a buffer of `max` characters plus its NUL:
   * at most `max` characters survive, and they are a prefix of the input.
   */
  function Truncate(s: CString, max: nat): (r: CString)
    ensures |r| <= max && |r| <= |s| && r == s[..|r|]
    ensures |s| <= max ==> r == s
    ensures |s| > max ==> |r| == max
  {
    if |s| <= max then s else s[..max]
  }

  /** A char buffer of `size` bytes holding `s`, NUL-padded to the end. */
  function NameBuffer(s: CString, size: nat): (r: seq<byte>)
    requires |s| < size
    ensures |r| == size
  {
    s + Zeros(size - |s|)
  }

  /** The C string a char buffer holds: its bytes before the first NUL. */
  function CStringIn(buf: seq<byte>): (s: CString)
    ensures |s| <= |buf| && s == buf[..|s|]
    ensures |s| < |buf| ==> buf[|s|] == 0
  {
    if buf == [] || buf[0] == 0 then [] else [buf[0]] + CStringIn(buf[1..])
  }

  /** Reading a name back from its buffer gives the name: nothing is lost and nothing spills in. */
  lemma {:induction false} CStringInNameBuffer(s: CString, size: nat)
    requires |s| < size
    ensures CStringIn(NameBuffer(s, size)) == s
  {
    if s != [] {
      assert NameBuffer(s, size)[1..] == NameBuffer(s[1..], size - 1);
      CStringInNameBuffer(s[1..], size - 1);
    } else {
      assert NameBuffer(s, size)[0] == 0;
    }
  }

  /** `buf` after `data` has been stored at index `at` (a memcpy into it). */
  function Overwrite(buf: seq<byte>, at: nat, data: seq<byte>): (r: seq<byte>)
    requires at + |data| <= |buf|
    ensures |r| == |buf|
    ensures forall i :: 0 <= i < |buf| ==> r[i] == if at <= i < at + |data| then data[i - at] else buf[i]
  {
    buf[..at] + data + buf[at + |data|..]
  }

  /** The bytes of `a + b` from an offset past `a` are bytes of `b`. */
  lemma SliceAfter(a: seq<byte>, b: seq<byte>, k: nat)
    requires |a| <= k <= |a| + |b|
    ensures (a + b)[k..] == b[k - |a|..]
  {
  }

  /** A write past the end of `a` into `a + b` is a write into `b`. */
  lemma OverwriteAfter(a: seq<byte>, b: seq<byte>, at: nat, data: seq<byte>)
    requires |a| <= at && at + |data| <= |a| + |b|
    ensures Overwrite(a + b, at, data) == a + Overwrite(b, at - |a|, data)
  {
    assert (a + b)[..at] == a + b[..at - |a|];
    assert (a + b)[at + |data|..] == b[at - |a| + |data|..];
  }

  /** A write that ends before `b` starts is a write into `a`. */
  lemma OverwriteBefore(a: seq<byte>, b: seq<byte>, at: nat, data: seq<byte>)
    requires at + |data| <= |a|
    ensures Overwrite(a + b, at, data) == Overwrite(a, at, data) + b
  {
    assert (a + b)[..at] == a[..at];
    assert (a + b)[at + |data|..] == a[at + |data|..] + b;
  }
}
