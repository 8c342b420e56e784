/** The MD5 message digest as sections 3.1 to 3.5 of RFC 1321 define it. */
module Md5Spec {
  import opened Bytes
  import opened Words

  // ---------------------------------------------------------------- section 3.4: the block transformation

  function F(x: word, y: word, z: word): word { Or(And(x, y), And(Not(x), z)) }
  function G(x: word, y: word, z: word): word { Or(And(x, z), And(y, Not(z))) }
  function H(x: word, y: word, z: word): word { Xor(Xor(x, y), z) }
  function I(x: word, y: word, z: word): word { Xor(y, Or(x, Not(z))) }

  /** What they do to each bit: F selects by x, G by z, H is parity, I is y against x or not z. */
  lemma RoundFunctionBits(x: word, y: word, z: word, i: nat)
    requires i < 32
    ensures Bit(F(x, y, z), i) == if Bit(x, i) then Bit(y, i) else Bit(z, i)
    ensures Bit(G(x, y, z), i) == if Bit(z, i) then Bit(x, i) else Bit(y, i)
    ensures Bit(H(x, y, z), i) == ((Bit(x, i) != Bit(y, i)) != Bit(z, i))
    ensures Bit(I(x, y, z), i) == (Bit(y, i) != (Bit(x, i) || !Bit(z, i)))
  {
    BitwiseBits(x, y, i);
    BitwiseBits(Not(x), z, i);
    BitwiseBits(And(x, y), And(Not(x), z), i);
    BitwiseBits(x, z, i);
    BitwiseBits(z, z, i);
    BitwiseBits(y, Not(z), i);
    BitwiseBits(And(x, z), And(y, Not(z)), i);
    BitwiseBits(Xor(x, y), z, i);
    BitwiseBits(x, Not(z), i);
    BitwiseBits(y, Or(x, Not(z)), i);
  }

  /** The table of section 3.4: the integer part of 2^32 times abs(sin(i + 1)). */
  function T(r: nat, j: nat): word
    requires r < 4 && j < 16
  {
    if r == 0 then
      match j {
        case 0 => 0xd76aa478 case 1 => 0xe8c7b756 case 2 => 0x242070db case 3 => 0xc1bdceee
        case 4 => 0xf57c0faf case 5 => 0x4787c62a case 6 => 0xa8304613 case 7 => 0xfd469501
        case 8 => 0x698098d8 case 9 => 0x8b44f7af case 10 => 0xffff5bb1 case 11 => 0x895cd7be
        case 12 => 0x6b901122 case 13 => 0xfd987193 case 14 => 0xa679438e case _ => 0x49b40821
      }
    else if r == 1 then
      match j {
        case 0 => 0xf61e2562 case 1 => 0xc040b340 case 2 => 0x265e5a51 case 3 => 0xe9b6c7aa
        case 4 => 0xd62f105d case 5 => 0x02441453 case 6 => 0xd8a1e681 case 7 => 0xe7d3fbc8
        case 8 => 0x21e1cde6 case 9 => 0xc33707d6 case 10 => 0xf4d50d87 case 11 => 0x455a14ed
        case 12 => 0xa9e3e905 case 13 => 0xfcefa3f8 case 14 => 0x676f02d9 case _ => 0x8d2a4c8a
      }
    else if r == 2 then
      match j {
        case 0 => 0xfffa3942 case 1 => 0x8771f681 case 2 => 0x6d9d6122 case 3 => 0xfde5380c
        case 4 => 0xa4beea44 case 5 => 0x4bdecfa9 case 6 => 0xf6bb4b60 case 7 => 0xbebfbc70
        case 8 => 0x289b7ec6 case 9 => 0xeaa127fa case 10 => 0xd4ef3085 case 11 => 0x04881d05
        case 12 => 0xd9d4d039 case 13 => 0xe6db99e5 case 14 => 0x1fa27cf8 case _ => 0xc4ac5665
      }
    else
      match j {
        case 0 => 0xf4292244 case 1 => 0x432aff97 case 2 => 0xab9423a7 case 3 => 0xfc93a039
        case 4 => 0x655b59c3 case 5 => 0x8f0ccc92 case 6 => 0xffeff47d case 7 => 0x85845dd1
        case 8 => 0x6fa87e4f case 9 => 0xfe2ce6e0 case 10 => 0xa3014314 case 11 => 0x4e0811a1
        case 12 => 0xf7537e82 case 13 => 0xbd3af235 case 14 => 0x2ad7d2bb case _ => 0xeb86d391
      }
  }

  /** Which word of the block the j-th operation of round r reads. */
  function Index(r: nat, j: nat): (k: nat)
    ensures k < 16
  {
    if r == 0 then j % 16
    else if r == 1 then (5 * j + 1) % 16
    else if r == 2 then (3 * j + 5) % 16
    else 7 * j % 16
  }

  /** How far it rotates: four amounts a round, used in turn. */
  function Shift(r: nat, j: nat): (s: nat)
    ensures 4 <= s <= 23
  {
    var i := j % 4;
    if r == 0 then (if i == 0 then 7 else if i == 1 then 12 else if i == 2 then 17 else 22)
    else if r == 1 then (if i == 0 then 5 else if i == 1 then 9 else if i == 2 then 14 else 20)
    else if r == 2 then (if i == 0 then 4 else if i == 1 then 11 else if i == 2 then 16 else 23)
    else (if i == 0 then 6 else if i == 1 then 10 else if i == 2 then 15 else 21)
  }

  function Mix(r: nat, x: word, y: word, z: word): word {
    if r == 0 then F(x, y, z) else if r == 1 then G(x, y, z) else if r == 2 then H(x, y, z) else I(x, y, z)
  }

  datatype State = State(a: word, b: word, c: word, d: word)

  /** b + ((a + f + x + t) <<< s). */
  function Turn(a: word, f: word, b: word, x: word, t: word, s: nat): word
    requires s <= 32
  {
    Add(b, Rotate(Add(Add(Add(a, f), x), t), s))
  }

  /** The first `n` operations of round r. */
  function Operations(r: nat, n: nat, st: State, x: seq<word>): State
    requires |x| == 16 && r < 4 && n <= |x|
    decreases |x|, n, 0
  {
    if n == 0 then st else Operation(r, n - 1, st, x)
  }

  /** Operation j, coming after those before it, replaces `a`; then the four words change roles. */
  function Operation(r: nat, j: nat, st: State, x: seq<word>): State
    requires |x| == 16 && r < 4 && j < |x|
    decreases |x|, j, 1
  {
    var p := Operations(r, j, st, x);
    var f := Mix(r, p.b, p.c, p.d);
    State(p.d, Turn(p.a, f, p.b, x[Index(r, j)], T(r, j), Shift(r, j)), p.b, p.c)
  }

  /** One operation per word of the block. */
  function Round(r: nat, st: State, x: seq<word>): State
    requires |x| == 16 && r < 4
  {
    Operations(r, |x|, st, x)
  }

  function Compress(st: State, block: seq<byte>): State
    requires |block| == 64
  {
    var x := BlockWords(block);
    var e := Round(3, Round(2, Round(1, Round(0, st, x), x), x), x);
    State(Add(st.a, e.a), Add(st.b, e.b), Add(st.c, e.c), Add(st.d, e.d))
  }

  /** Section 2: a word is four bytes, the low-order byte first. */
  function Word(block: seq<byte>, k: nat): word
    requires 4 * k + 4 <= |block|
  {
    FromBytes(block[4 * k..4 * k + 4])
  }

  function BlockWords(block: seq<byte>): (x: seq<word>)
    requires |block| == 64
    ensures |x| == 16 && forall k :: 0 <= k < 16 ==> x[k] == Word(block, k)
  {
    seq(16, k requires 0 <= k < 16 => Word(block, k))
  }

  lemma FromFourBytes(a: byte, b: byte, c: byte, d: byte)
    ensures FromBytes([a, b, c, d]) == a + 0x100 * b + 0x1_0000 * c + 0x100_0000 * d
  {
    assert [a, b, c, d][1..] == [b, c, d] && [b, c, d][1..] == [c, d] && [c, d][1..] == [d] && [d][1..] == [];
    assert FromBytes([c, d]) == c + 0x100 * d;
    assert FromBytes([b, c, d]) == b + 0x100 * c + 0x1_0000 * d;
  }

  /** Word k of a block holds its bytes 4k to 4k + 3, the low-order byte first. */
  lemma WordHolds(block: seq<byte>, k: nat)
    requires |block| == 64 && k < 16
    ensures BlockWords(block)[k] == block[4 * k] as int + 0x100 * (block[4 * k + 1] as int)
                                    + 0x1_0000 * (block[4 * k + 2] as int) + 0x100_0000 * (block[4 * k + 3] as int)
  {
    FromFourBytes(block[4 * k], block[4 * k + 1], block[4 * k + 2], block[4 * k + 3]);
    assert block[4 * k..4 * k + 4] == [block[4 * k], block[4 * k + 1], block[4 * k + 2], block[4 * k + 3]];
  }

  /** So the words tell blocks apart. */
  lemma WordsAreTheBlock(x: seq<byte>, y: seq<byte>)
    requires |x| == |y| == 64 && BlockWords(x) == BlockWords(y)
    ensures x == y
  {
    forall i | 0 <= i < 64 ensures x[i] == y[i] {
      var k := i / 4;
      assert Word(x, k) == BlockWords(x)[k] == BlockWords(y)[k] == Word(y, k);
      NumberRoundTrip(x[4 * k..4 * k + 4]);
      NumberRoundTrip(y[4 * k..4 * k + 4]);
      assert x[i] == x[4 * k..4 * k + 4][i - 4 * k] && y[i] == y[4 * k..4 * k + 4][i - 4 * k];
    }
  }

  /** Every whole block in turn. */
  function CompressAll(st: State, data: seq<byte>): State
    decreases |data|
  {
    if |data| < 64 then st else CompressAll(Compress(st, data[..64]), data[64..])
  }

  lemma PaddedSize(n: nat)
    ensures (n + 1 + ZeroCount(n) + 8) % 64 == 0
  {
  }

  // ---------------------------------------------------------------- sections 3.1, 3.2, 3.3 and 3.5

  const INITIAL: State := State(0x67452301, 0xefcdab89, 0x98badcfe, 0x10325476)

  /** Zero bytes between the 0x80 and the length, up to 56 modulo 64. */
  function ZeroCount(length: nat): (n: nat)
    ensures n < 64 && (length + 1 + n) % 64 == 56
  {
    (119 - length % 64) % 64
  }

  function Zeros(n: nat): (z: seq<byte>)
    ensures |z| == n && forall i :: 0 <= i < n ==> z[i] == 0
  {
    seq(n, _ => 0)
  }

  /** The length in bits modulo 2^64, low-order byte first. */
  function LengthBytes(length: nat): (s: seq<byte>)
    ensures |s| == 8
  {
    ToBytes(8 * length % 0x1_0000_0000_0000_0000, 8)
  }

  /** The message, a single one bit, zeros, and the length. */
  function Padded(msg: seq<byte>): (p: seq<byte>)
    ensures |p| % 64 == 0
  {
    PaddedSize(|msg|);
    msg + [0x80] + Zeros(ZeroCount(|msg|)) + LengthBytes(|msg|)
  }

  function StateBytes(st: State): seq<byte> {
    ToBytes(st.a, 4) + ToBytes(st.b, 4) + ToBytes(st.c, 4) + ToBytes(st.d, 4)
  }

  lemma FourBytes(w: word)
    ensures ToBytes(w, 4) == [w % 0x100, w / 0x100 % 0x100, w / 0x1_0000 % 0x100, w / 0x100_0000 % 0x100]
  {
    var x1, x2 := w / 0x100, w / 0x1_0000;
    assert x1 / 0x100 == x2 && x2 / 0x100 == w / 0x100_0000;
    assert ToBytes(x2 / 0x100, 1) == [x2 / 0x100 % 0x100];
    assert ToBytes(x2, 2) == [x2 % 0x100] + ToBytes(x2 / 0x100, 1);
    assert ToBytes(x1, 3) == [x1 % 0x100] + ToBytes(x2, 2);
    assert ToBytes(w, 4) == [w % 0x100] + ToBytes(x1, 3);
  }

  /** The sixteen bytes of the result are those of a, b, c and d in this order, the low-order byte first. */
  lemma DigestHolds(st: State, k: nat)
    requires k < 4
    ensures |StateBytes(st)| == 16
    ensures var w := if k == 0 then st.a else if k == 1 then st.b else if k == 2 then st.c else st.d;
            var s := StateBytes(st);
      && s[4 * k] == w % 0x100 && s[4 * k + 1] == w / 0x100 % 0x100
      && s[4 * k + 2] == w / 0x1_0000 % 0x100 && s[4 * k + 3] == w / 0x100_0000 % 0x100
  {
    FourBytes(st.a);
    FourBytes(st.b);
    FourBytes(st.c);
    FourBytes(st.d);
  }

  function Digest(msg: seq<byte>): seq<byte> {
    StateBytes(CompressAll(INITIAL, Padded(msg)))
  }
}
