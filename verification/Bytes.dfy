/** Bytes, and integers stored in host byte order; the host is little-endian here. */
module Bytes {
  type byte = x: int | 0 <= x < 256

  /** One more than the length field of a list or tree can hold: it has 32 or 16 bits. */
  function Capacity(wide: bool): nat {
    if wide then 0x1_0000_0000 else 0x1_0000
  }

  function Pow256(width: nat): (r: nat)
    ensures r >= 1
  {
    if width == 0 then 1 else 256 * Pow256(width - 1)
  }

  lemma Powers()
    ensures Pow256(1) == 0x100 && Pow256(2) == 0x1_0000 && Pow256(4) == 0x1_0000_0000
    ensures Pow256(8) == 0x1_0000_0000_0000_0000
  {
    assert Pow256(2) == 256 * Pow256(1) && Pow256(3) == 256 * Pow256(2) && Pow256(4) == 256 * Pow256(3);
    assert Pow256(5) == 256 * Pow256(4) && Pow256(6) == 256 * Pow256(5) && Pow256(7) == 256 * Pow256(6);
  }

  /** The `width` low bytes of `n`, least significant first. */
  function ToBytes(n: nat, width: nat): (s: seq<byte>)
    ensures |s| == width
  {
    if width == 0 then [] else [n % 256] + ToBytes(n / 256, width - 1)
  }

  function FromBytes(s: seq<byte>): (n: nat)
    ensures n < Pow256(|s|)
  {
    if s == [] then 0 else s[0] + 256 * FromBytes(s[1..])
  }

  /** Reading back what was stored gives the number, if it fits. */
  lemma {:induction false} BytesRoundTrip(n: nat, width: nat)
    requires n < Pow256(width)
    ensures FromBytes(ToBytes(n, width)) == n
  {
    if width > 0 {
      BytesRoundTrip(n / 256, width - 1);
      assert ToBytes(n, width)[1..] == ToBytes(n / 256, width - 1);
    }
  }

  lemma LowByte(b: byte, n: nat)
    ensures (b + 256 * n) % 256 == b && (b + 256 * n) / 256 == n
  {
  }

  /** A number comes back from the length field of a list or tree if and only if it is below its capacity. */
  lemma CapacityIsExact(n: nat, wide: bool)
    ensures n < Capacity(wide) <==> FromBytes(ToBytes(n, if wide then 4 else 2)) == n
  {
    Powers();
    var w := if wide then 4 else 2;
    if n < Capacity(wide) { BytesRoundTrip(n, w); }
  }

  /** And storing what was read gives the bytes, so different numbers have different bytes. */
  lemma {:induction false} NumberRoundTrip(s: seq<byte>)
    ensures ToBytes(FromBytes(s), |s|) == s
  {
    if s != [] {
      NumberRoundTrip(s[1..]);
      LowByte(s[0], FromBytes(s[1..]));
      assert s == [s[0]] + s[1..];
    }
  }

  /** A `char` of a text stands for a byte; a text ends before its NUL. */
  function Codes(s: string): (r: seq<byte>)
    ensures |r| == |s|
  {
    seq(|s|, i requires 0 <= i < |s| => s[i] as int % 256)
  }
}
