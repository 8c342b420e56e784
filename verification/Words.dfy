/** 32-bit words as numbers, with the bitwise operators defined bit by bit, the lowest bit first. */
module Words {
  const WORD := 0x1_0000_0000

  type word = x: nat | x < WORD

  type bits = b: seq<bool> | |b| == 32 witness seq(32, _ => false)

  /** Addition modulo 2^32. */
  function Add(x: word, y: word): (z: word)
    ensures z == x + y || z == x + y - 0x1_0000_0000
  {
    (x + y) % WORD
  }

  function Bit(x: nat, i: nat): bool {
    if i == 0 then x % 2 == 1 else Bit(x / 2, i - 1)
  }

  function Number(b: seq<bool>): nat {
    if b == [] then 0 else (if b[0] then 1 else 0) + 2 * Number(b[1..])
  }

  function Pow2(n: nat): nat {
    if n == 0 then 1 else 2 * Pow2(n - 1)
  }

  lemma {:induction false} NumberFits(b: seq<bool>)
    ensures Number(b) < Pow2(|b|)
  {
    if b != [] { NumberFits(b[1..]); }
  }

  lemma WordSize()
    ensures Pow2(32) == WORD
  {
    assert Pow2(8) == 0x100;
    assert Pow2(16) == 0x1_0000;
    assert Pow2(24) == 0x100_0000;
  }

  function Of(b: bits): word {
    NumberFits(b);
    WordSize();
    Number(b)
  }

  lemma {:induction false} BitOfNumber(b: seq<bool>, i: nat)
    requires i < |b|
    ensures Bit(Number(b), i) == b[i]
  {
    if i > 0 { BitOfNumber(b[1..], i - 1); }
  }

  lemma {:induction false} NumberOfBits(x: nat, b: seq<bool>)
    requires x < Pow2(|b|) && forall i :: 0 <= i < |b| ==> b[i] == Bit(x, i)
    ensures Number(b) == x
  {
    if b != [] {
      forall i | 0 <= i < |b| - 1 ensures b[1..][i] == Bit(x / 2, i) {
        assert b[i + 1] == Bit(x, i + 1);
      }
      NumberOfBits(x / 2, b[1..]);
    }
  }

  function And(x: word, y: word): word { Of(seq(32, i requires 0 <= i < 32 => Bit(x, i) && Bit(y, i))) }

  function Or(x: word, y: word): word { Of(seq(32, i requires 0 <= i < 32 => Bit(x, i) || Bit(y, i))) }

  function Xor(x: word, y: word): word { Of(seq(32, i requires 0 <= i < 32 => Bit(x, i) != Bit(y, i))) }

  function Not(x: word): word { Of(seq(32, i requires 0 <= i < 32 => !Bit(x, i))) }

  function Left(x: word, s: nat): word { Of(seq(32, i requires 0 <= i < 32 => i >= s && Bit(x, i - s))) }

  function Right(x: word, s: nat): word { Of(seq(32, i requires 0 <= i < 32 => i + s < 32 && Bit(x, i + s))) }

  /** The circular shift: bits leaving at the top come in at the bottom. */
  function Rotate(x: word, s: nat): word
    requires s <= 32
  {
    Of(seq(32, i requires 0 <= i < 32 => Bit(x, (i + 32 - s) % 32)))
  }

  lemma BitwiseBits(x: word, y: word, i: nat)
    requires i < 32
    ensures Bit(And(x, y), i) == (Bit(x, i) && Bit(y, i))
    ensures Bit(Or(x, y), i) == (Bit(x, i) || Bit(y, i))
    ensures Bit(Xor(x, y), i) == (Bit(x, i) != Bit(y, i))
    ensures Bit(Not(x), i) == !Bit(x, i)
  {
    BitOfNumber(seq(32, i requires 0 <= i < 32 => Bit(x, i) && Bit(y, i)), i);
    BitOfNumber(seq(32, i requires 0 <= i < 32 => Bit(x, i) || Bit(y, i)), i);
    BitOfNumber(seq(32, i requires 0 <= i < 32 => Bit(x, i) != Bit(y, i)), i);
    BitOfNumber(seq(32, i requires 0 <= i < 32 => !Bit(x, i)), i);
  }

  lemma ShiftBits(x: word, s: nat, i: nat)
    requires i < 32 && s <= 32
    ensures Bit(Left(x, s), i) == (i >= s && Bit(x, i - s))
    ensures Bit(Right(x, s), i) == (i + s < 32 && Bit(x, i + s))
    ensures Bit(Rotate(x, s), i) == Bit(x, (i + 32 - s) % 32)
  {
    BitOfNumber(seq(32, i requires 0 <= i < 32 => i >= s && Bit(x, i - s)), i);
    BitOfNumber(seq(32, i requires 0 <= i < 32 => i + s < 32 && Bit(x, i + s)), i);
    BitOfNumber(seq(32, i requires 0 <= i < 32 => Bit(x, (i + 32 - s) % 32)), i);
  }

  /** Words with the same bits are equal. */
  lemma SameBits(x: word, y: word)
    requires forall i: nat :: i < 32 ==> Bit(x, i) == Bit(y, i)
    ensures x == y
  {
    WordSize();
    var b := seq(32, i requires 0 <= i < 32 => Bit(x, i));
    NumberOfBits(x, b);
    NumberOfBits(y, b);
  }
}
