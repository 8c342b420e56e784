/** The block transformation as `body` computes it, and why it is that of the RFC. */
module Md5Block {
  import opened Words
  import opened Md5Spec

  function FastF(x: word, y: word, z: word): word { Xor(z, And(x, Xor(y, z))) }
  function FastG(x: word, y: word, z: word): word { Xor(y, And(z, Xor(x, y))) }
  function H2(x: word, y: word, z: word): word { Xor(x, Xor(y, z)) }

  lemma FastFIsF(x: word, y: word, z: word)
    ensures FastF(x, y, z) == F(x, y, z)
  {
    forall i: nat | i < 32 ensures Bit(FastF(x, y, z), i) == Bit(F(x, y, z), i) {
      BitwiseBits(y, z, i);
      BitwiseBits(x, Xor(y, z), i);
      BitwiseBits(z, And(x, Xor(y, z)), i);
      BitwiseBits(x, y, i);
      BitwiseBits(Not(x), z, i);
      BitwiseBits(And(x, y), And(Not(x), z), i);
    }
    SameBits(FastF(x, y, z), F(x, y, z));
  }

  lemma FastGIsG(x: word, y: word, z: word)
    ensures FastG(x, y, z) == G(x, y, z)
  {
    forall i: nat | i < 32 ensures Bit(FastG(x, y, z), i) == Bit(G(x, y, z), i) {
      BitwiseBits(x, y, i);
      BitwiseBits(z, Xor(x, y), i);
      BitwiseBits(y, And(z, Xor(x, y)), i);
      BitwiseBits(x, z, i);
      BitwiseBits(z, z, i);
      BitwiseBits(y, Not(z), i);
      BitwiseBits(And(x, z), And(y, Not(z)), i);
    }
    SameBits(FastG(x, y, z), G(x, y, z));
  }

  lemma H2IsH(x: word, y: word, z: word)
    ensures H2(x, y, z) == H(x, y, z)
  {
    forall i: nat | i < 32 ensures Bit(H2(x, y, z), i) == Bit(H(x, y, z), i) {
      BitwiseBits(y, z, i);
      BitwiseBits(x, Xor(y, z), i);
      BitwiseBits(x, y, i);
      BitwiseBits(Xor(x, y), z, i);
    }
    SameBits(H2(x, y, z), H(x, y, z));
  }

  /** The second line of the STEP macro. */
  function Turned(x: word, s: nat): word
    requires s <= 32
  {
    Or(Left(x, s), Right(And(x, 0xffffffff), 32 - s))
  }

  lemma {:induction false} AllOnes(n: nat, i: nat)
    requires i < n
    ensures Pow2(n) > 0 && Bit(Pow2(n) - 1, i)
  {
    if i > 0 {
      AllOnes(n - 1, i - 1);
      assert (Pow2(n) - 1) / 2 == Pow2(n - 1) - 1;
    } else {
      PowerPositive(n - 1);
    }
  }

  lemma {:induction false} PowerPositive(n: nat)
    ensures Pow2(n) > 0
  {
    if n > 0 { PowerPositive(n - 1); }
  }

  lemma MaskIsIdle(x: word)
    ensures And(x, 0xffffffff) == x
  {
    forall i: nat | i < 32 ensures Bit(And(x, 0xffffffff), i) == Bit(x, i) {
      WordSize();
      AllOnes(32, i);
      BitwiseBits(x, 0xffffffff, i);
    }
    SameBits(And(x, 0xffffffff), x);
  }

  lemma ShiftsAreRotate(x: word, s: nat)
    requires 0 < s <= 32
    ensures Or(Left(x, s), Right(x, 32 - s)) == Rotate(x, s)
  {
    forall i: nat | i < 32 ensures Bit(Or(Left(x, s), Right(x, 32 - s)), i) == Bit(Rotate(x, s), i) {
      ShiftBits(x, s, i);
      ShiftBits(x, 32 - s, i);
      BitwiseBits(Left(x, s), Right(x, 32 - s), i);
    }
    SameBits(Or(Left(x, s), Right(x, 32 - s)), Rotate(x, s));
  }

  lemma TurnedIsRotate(x: word, s: nat)
    requires 0 < s <= 32
    ensures Turned(x, s) == Rotate(x, s)
  {
    MaskIsIdle(x);
    ShiftsAreRotate(x, s);
  }

  /** The STEP macro, `f` being the value of the round function. */
  function Step(a: word, f: word, b: word, x: word, t: word, s: nat): word
    requires s <= 32
  {
    Add(Turned(Add(a, Add(Add(f, x), t)), s), b)
  }

  lemma AddAssociates(x: word, y: word, z: word)
    ensures Add(x, Add(y, z)) == Add(Add(x, y), z)
  {
  }

  lemma StepIsTurn(a: word, f: word, b: word, x: word, t: word, s: nat)
    requires 0 < s <= 32
    ensures Step(a, f, b, x, t, s) == Turn(a, f, b, x, t, s)
  {
    AddAssociates(a, Add(f, x), t);
    AddAssociates(a, f, x);
    TurnedIsRotate(Add(a, Add(Add(f, x), t)), s);
  }

  lemma StepF(j: nat, start: State, x: seq<word>, p: State, k: nat, t: word, s: nat)
    requires |x| == 16 && j < 16 && p == Operations(0, j, start, x)
    requires k == Index(0, j) && t == T(0, j) && s == Shift(0, j)
    ensures Operations(0, j + 1, start, x) == State(p.d, Step(p.a, FastF(p.b, p.c, p.d), p.b, x[k], t, s), p.b, p.c)
  {
    FastFIsF(p.b, p.c, p.d);
    assert Operations(0, j + 1, start, x) == Operation(0, j, start, x);
    StepIsTurn(p.a, FastF(p.b, p.c, p.d), p.b, x[k], t, s);
  }

  lemma StepG(j: nat, start: State, x: seq<word>, p: State, k: nat, t: word, s: nat)
    requires |x| == 16 && j < 16 && p == Operations(1, j, start, x)
    requires k == Index(1, j) && t == T(1, j) && s == Shift(1, j)
    ensures Operations(1, j + 1, start, x) == State(p.d, Step(p.a, FastG(p.b, p.c, p.d), p.b, x[k], t, s), p.b, p.c)
  {
    FastGIsG(p.b, p.c, p.d);
    assert Operations(1, j + 1, start, x) == Operation(1, j, start, x);
    StepIsTurn(p.a, FastG(p.b, p.c, p.d), p.b, x[k], t, s);
  }

  lemma StepH(j: nat, start: State, x: seq<word>, p: State, k: nat, t: word, s: nat)
    requires |x| == 16 && j < 16 && p == Operations(2, j, start, x)
    requires k == Index(2, j) && t == T(2, j) && s == Shift(2, j)
    ensures Operations(2, j + 1, start, x) == State(p.d, Step(p.a, H(p.b, p.c, p.d), p.b, x[k], t, s), p.b, p.c)
  {
    assert Operations(2, j + 1, start, x) == Operation(2, j, start, x);
    StepIsTurn(p.a, H(p.b, p.c, p.d), p.b, x[k], t, s);
  }

  lemma StepH2(j: nat, start: State, x: seq<word>, p: State, k: nat, t: word, s: nat)
    requires |x| == 16 && j < 16 && p == Operations(2, j, start, x)
    requires k == Index(2, j) && t == T(2, j) && s == Shift(2, j)
    ensures Operations(2, j + 1, start, x) == State(p.d, Step(p.a, H2(p.b, p.c, p.d), p.b, x[k], t, s), p.b, p.c)
  {
    H2IsH(p.b, p.c, p.d);
    assert Operations(2, j + 1, start, x) == Operation(2, j, start, x);
    StepIsTurn(p.a, H2(p.b, p.c, p.d), p.b, x[k], t, s);
  }

  lemma StepI(j: nat, start: State, x: seq<word>, p: State, k: nat, t: word, s: nat)
    requires |x| == 16 && j < 16 && p == Operations(3, j, start, x)
    requires k == Index(3, j) && t == T(3, j) && s == Shift(3, j)
    ensures Operations(3, j + 1, start, x) == State(p.d, Step(p.a, I(p.b, p.c, p.d), p.b, x[k], t, s), p.b, p.c)
  {
    assert Operations(3, j + 1, start, x) == Operation(3, j, start, x);
    StepIsTurn(p.a, I(p.b, p.c, p.d), p.b, x[k], t, s);
  }

  lemma Constants1()
    ensures Index(0, 0) == 0 && T(0, 0) == 0xd76aa478 && Shift(0, 0) == 7
    ensures Index(0, 1) == 1 && T(0, 1) == 0xe8c7b756 && Shift(0, 1) == 12
    ensures Index(0, 2) == 2 && T(0, 2) == 0x242070db && Shift(0, 2) == 17
    ensures Index(0, 3) == 3 && T(0, 3) == 0xc1bdceee && Shift(0, 3) == 22
    ensures Index(0, 4) == 4 && T(0, 4) == 0xf57c0faf && Shift(0, 4) == 7
    ensures Index(0, 5) == 5 && T(0, 5) == 0x4787c62a && Shift(0, 5) == 12
    ensures Index(0, 6) == 6 && T(0, 6) == 0xa8304613 && Shift(0, 6) == 17
    ensures Index(0, 7) == 7 && T(0, 7) == 0xfd469501 && Shift(0, 7) == 22
    ensures Index(0, 8) == 8 && T(0, 8) == 0x698098d8 && Shift(0, 8) == 7
    ensures Index(0, 9) == 9 && T(0, 9) == 0x8b44f7af && Shift(0, 9) == 12
    ensures Index(0, 10) == 10 && T(0, 10) == 0xffff5bb1 && Shift(0, 10) == 17
    ensures Index(0, 11) == 11 && T(0, 11) == 0x895cd7be && Shift(0, 11) == 22
    ensures Index(0, 12) == 12 && T(0, 12) == 0x6b901122 && Shift(0, 12) == 7
    ensures Index(0, 13) == 13 && T(0, 13) == 0xfd987193 && Shift(0, 13) == 12
    ensures Index(0, 14) == 14 && T(0, 14) == 0xa679438e && Shift(0, 14) == 17
    ensures Index(0, 15) == 15 && T(0, 15) == 0x49b40821 && Shift(0, 15) == 22
  {
  }

  method Round1(st: State, x: seq<word>) returns (r: State)
    requires |x| == 16
    ensures r == Round(0, st, x)
  {
    Constants1();
    var a, b, c, d := st.a, st.b, st.c, st.d;
    StepF(0, st, x, State(a, b, c, d), 0, 0xd76aa478, 7);
    a := Step(a, FastF(b, c, d), b, x[0], 0xd76aa478, 7);
    StepF(1, st, x, State(d, a, b, c), 1, 0xe8c7b756, 12);
    d := Step(d, FastF(a, b, c), a, x[1], 0xe8c7b756, 12);
    StepF(2, st, x, State(c, d, a, b), 2, 0x242070db, 17);
    c := Step(c, FastF(d, a, b), d, x[2], 0x242070db, 17);
    StepF(3, st, x, State(b, c, d, a), 3, 0xc1bdceee, 22);
    b := Step(b, FastF(c, d, a), c, x[3], 0xc1bdceee, 22);
    StepF(4, st, x, State(a, b, c, d), 4, 0xf57c0faf, 7);
    a := Step(a, FastF(b, c, d), b, x[4], 0xf57c0faf, 7);
    StepF(5, st, x, State(d, a, b, c), 5, 0x4787c62a, 12);
    d := Step(d, FastF(a, b, c), a, x[5], 0x4787c62a, 12);
    StepF(6, st, x, State(c, d, a, b), 6, 0xa8304613, 17);
    c := Step(c, FastF(d, a, b), d, x[6], 0xa8304613, 17);
    StepF(7, st, x, State(b, c, d, a), 7, 0xfd469501, 22);
    b := Step(b, FastF(c, d, a), c, x[7], 0xfd469501, 22);
    StepF(8, st, x, State(a, b, c, d), 8, 0x698098d8, 7);
    a := Step(a, FastF(b, c, d), b, x[8], 0x698098d8, 7);
    StepF(9, st, x, State(d, a, b, c), 9, 0x8b44f7af, 12);
    d := Step(d, FastF(a, b, c), a, x[9], 0x8b44f7af, 12);
    StepF(10, st, x, State(c, d, a, b), 10, 0xffff5bb1, 17);
    c := Step(c, FastF(d, a, b), d, x[10], 0xffff5bb1, 17);
    StepF(11, st, x, State(b, c, d, a), 11, 0x895cd7be, 22);
    b := Step(b, FastF(c, d, a), c, x[11], 0x895cd7be, 22);
    StepF(12, st, x, State(a, b, c, d), 12, 0x6b901122, 7);
    a := Step(a, FastF(b, c, d), b, x[12], 0x6b901122, 7);
    StepF(13, st, x, State(d, a, b, c), 13, 0xfd987193, 12);
    d := Step(d, FastF(a, b, c), a, x[13], 0xfd987193, 12);
    StepF(14, st, x, State(c, d, a, b), 14, 0xa679438e, 17);
    c := Step(c, FastF(d, a, b), d, x[14], 0xa679438e, 17);
    StepF(15, st, x, State(b, c, d, a), 15, 0x49b40821, 22);
    b := Step(b, FastF(c, d, a), c, x[15], 0x49b40821, 22);
    r := State(a, b, c, d);
  }

  lemma Constants2()
    ensures Index(1, 0) == 1 && T(1, 0) == 0xf61e2562 && Shift(1, 0) == 5
    ensures Index(1, 1) == 6 && T(1, 1) == 0xc040b340 && Shift(1, 1) == 9
    ensures Index(1, 2) == 11 && T(1, 2) == 0x265e5a51 && Shift(1, 2) == 14
    ensures Index(1, 3) == 0 && T(1, 3) == 0xe9b6c7aa && Shift(1, 3) == 20
    ensures Index(1, 4) == 5 && T(1, 4) == 0xd62f105d && Shift(1, 4) == 5
    ensures Index(1, 5) == 10 && T(1, 5) == 0x02441453 && Shift(1, 5) == 9
    ensures Index(1, 6) == 15 && T(1, 6) == 0xd8a1e681 && Shift(1, 6) == 14
    ensures Index(1, 7) == 4 && T(1, 7) == 0xe7d3fbc8 && Shift(1, 7) == 20
    ensures Index(1, 8) == 9 && T(1, 8) == 0x21e1cde6 && Shift(1, 8) == 5
    ensures Index(1, 9) == 14 && T(1, 9) == 0xc33707d6 && Shift(1, 9) == 9
    ensures Index(1, 10) == 3 && T(1, 10) == 0xf4d50d87 && Shift(1, 10) == 14
    ensures Index(1, 11) == 8 && T(1, 11) == 0x455a14ed && Shift(1, 11) == 20
    ensures Index(1, 12) == 13 && T(1, 12) == 0xa9e3e905 && Shift(1, 12) == 5
    ensures Index(1, 13) == 2 && T(1, 13) == 0xfcefa3f8 && Shift(1, 13) == 9
    ensures Index(1, 14) == 7 && T(1, 14) == 0x676f02d9 && Shift(1, 14) == 14
    ensures Index(1, 15) == 12 && T(1, 15) == 0x8d2a4c8a && Shift(1, 15) == 20
  {
  }

  method Round2(st: State, x: seq<word>) returns (r: State)
    requires |x| == 16
    ensures r == Round(1, st, x)
  {
    Constants2();
    var a, b, c, d := st.a, st.b, st.c, st.d;
    StepG(0, st, x, State(a, b, c, d), 1, 0xf61e2562, 5);
    a := Step(a, FastG(b, c, d), b, x[1], 0xf61e2562, 5);
    StepG(1, st, x, State(d, a, b, c), 6, 0xc040b340, 9);
    d := Step(d, FastG(a, b, c), a, x[6], 0xc040b340, 9);
    StepG(2, st, x, State(c, d, a, b), 11, 0x265e5a51, 14);
    c := Step(c, FastG(d, a, b), d, x[11], 0x265e5a51, 14);
    StepG(3, st, x, State(b, c, d, a), 0, 0xe9b6c7aa, 20);
    b := Step(b, FastG(c, d, a), c, x[0], 0xe9b6c7aa, 20);
    StepG(4, st, x, State(a, b, c, d), 5, 0xd62f105d, 5);
    a := Step(a, FastG(b, c, d), b, x[5], 0xd62f105d, 5);
    StepG(5, st, x, State(d, a, b, c), 10, 0x02441453, 9);
    d := Step(d, FastG(a, b, c), a, x[10], 0x02441453, 9);
    StepG(6, st, x, State(c, d, a, b), 15, 0xd8a1e681, 14);
    c := Step(c, FastG(d, a, b), d, x[15], 0xd8a1e681, 14);
    StepG(7, st, x, State(b, c, d, a), 4, 0xe7d3fbc8, 20);
    b := Step(b, FastG(c, d, a), c, x[4], 0xe7d3fbc8, 20);
    StepG(8, st, x, State(a, b, c, d), 9, 0x21e1cde6, 5);
    a := Step(a, FastG(b, c, d), b, x[9], 0x21e1cde6, 5);
    StepG(9, st, x, State(d, a, b, c), 14, 0xc33707d6, 9);
    d := Step(d, FastG(a, b, c), a, x[14], 0xc33707d6, 9);
    StepG(10, st, x, State(c, d, a, b), 3, 0xf4d50d87, 14);
    c := Step(c, FastG(d, a, b), d, x[3], 0xf4d50d87, 14);
    StepG(11, st, x, State(b, c, d, a), 8, 0x455a14ed, 20);
    b := Step(b, FastG(c, d, a), c, x[8], 0x455a14ed, 20);
    StepG(12, st, x, State(a, b, c, d), 13, 0xa9e3e905, 5);
    a := Step(a, FastG(b, c, d), b, x[13], 0xa9e3e905, 5);
    StepG(13, st, x, State(d, a, b, c), 2, 0xfcefa3f8, 9);
    d := Step(d, FastG(a, b, c), a, x[2], 0xfcefa3f8, 9);
    StepG(14, st, x, State(c, d, a, b), 7, 0x676f02d9, 14);
    c := Step(c, FastG(d, a, b), d, x[7], 0x676f02d9, 14);
    StepG(15, st, x, State(b, c, d, a), 12, 0x8d2a4c8a, 20);
    b := Step(b, FastG(c, d, a), c, x[12], 0x8d2a4c8a, 20);
    r := State(a, b, c, d);
  }

  lemma Constants3()
    ensures Index(2, 0) == 5 && T(2, 0) == 0xfffa3942 && Shift(2, 0) == 4
    ensures Index(2, 1) == 8 && T(2, 1) == 0x8771f681 && Shift(2, 1) == 11
    ensures Index(2, 2) == 11 && T(2, 2) == 0x6d9d6122 && Shift(2, 2) == 16
    ensures Index(2, 3) == 14 && T(2, 3) == 0xfde5380c && Shift(2, 3) == 23
    ensures Index(2, 4) == 1 && T(2, 4) == 0xa4beea44 && Shift(2, 4) == 4
    ensures Index(2, 5) == 4 && T(2, 5) == 0x4bdecfa9 && Shift(2, 5) == 11
    ensures Index(2, 6) == 7 && T(2, 6) == 0xf6bb4b60 && Shift(2, 6) == 16
    ensures Index(2, 7) == 10 && T(2, 7) == 0xbebfbc70 && Shift(2, 7) == 23
    ensures Index(2, 8) == 13 && T(2, 8) == 0x289b7ec6 && Shift(2, 8) == 4
    ensures Index(2, 9) == 0 && T(2, 9) == 0xeaa127fa && Shift(2, 9) == 11
    ensures Index(2, 10) == 3 && T(2, 10) == 0xd4ef3085 && Shift(2, 10) == 16
    ensures Index(2, 11) == 6 && T(2, 11) == 0x04881d05 && Shift(2, 11) == 23
    ensures Index(2, 12) == 9 && T(2, 12) == 0xd9d4d039 && Shift(2, 12) == 4
    ensures Index(2, 13) == 12 && T(2, 13) == 0xe6db99e5 && Shift(2, 13) == 11
    ensures Index(2, 14) == 15 && T(2, 14) == 0x1fa27cf8 && Shift(2, 14) == 16
    ensures Index(2, 15) == 2 && T(2, 15) == 0xc4ac5665 && Shift(2, 15) == 23
  {
  }

  method Round3(st: State, x: seq<word>) returns (r: State)
    requires |x| == 16
    ensures r == Round(2, st, x)
  {
    Constants3();
    var a, b, c, d := st.a, st.b, st.c, st.d;
    StepH(0, st, x, State(a, b, c, d), 5, 0xfffa3942, 4);
    a := Step(a, H(b, c, d), b, x[5], 0xfffa3942, 4);
    StepH2(1, st, x, State(d, a, b, c), 8, 0x8771f681, 11);
    d := Step(d, H2(a, b, c), a, x[8], 0x8771f681, 11);
    StepH(2, st, x, State(c, d, a, b), 11, 0x6d9d6122, 16);
    c := Step(c, H(d, a, b), d, x[11], 0x6d9d6122, 16);
    StepH2(3, st, x, State(b, c, d, a), 14, 0xfde5380c, 23);
    b := Step(b, H2(c, d, a), c, x[14], 0xfde5380c, 23);
    StepH(4, st, x, State(a, b, c, d), 1, 0xa4beea44, 4);
    a := Step(a, H(b, c, d), b, x[1], 0xa4beea44, 4);
    StepH2(5, st, x, State(d, a, b, c), 4, 0x4bdecfa9, 11);
    d := Step(d, H2(a, b, c), a, x[4], 0x4bdecfa9, 11);
    StepH(6, st, x, State(c, d, a, b), 7, 0xf6bb4b60, 16);
    c := Step(c, H(d, a, b), d, x[7], 0xf6bb4b60, 16);
    StepH2(7, st, x, State(b, c, d, a), 10, 0xbebfbc70, 23);
    b := Step(b, H2(c, d, a), c, x[10], 0xbebfbc70, 23);
    StepH(8, st, x, State(a, b, c, d), 13, 0x289b7ec6, 4);
    a := Step(a, H(b, c, d), b, x[13], 0x289b7ec6, 4);
    StepH2(9, st, x, State(d, a, b, c), 0, 0xeaa127fa, 11);
    d := Step(d, H2(a, b, c), a, x[0], 0xeaa127fa, 11);
    StepH(10, st, x, State(c, d, a, b), 3, 0xd4ef3085, 16);
    c := Step(c, H(d, a, b), d, x[3], 0xd4ef3085, 16);
    StepH2(11, st, x, State(b, c, d, a), 6, 0x04881d05, 23);
    b := Step(b, H2(c, d, a), c, x[6], 0x04881d05, 23);
    StepH(12, st, x, State(a, b, c, d), 9, 0xd9d4d039, 4);
    a := Step(a, H(b, c, d), b, x[9], 0xd9d4d039, 4);
    StepH2(13, st, x, State(d, a, b, c), 12, 0xe6db99e5, 11);
    d := Step(d, H2(a, b, c), a, x[12], 0xe6db99e5, 11);
    StepH(14, st, x, State(c, d, a, b), 15, 0x1fa27cf8, 16);
    c := Step(c, H(d, a, b), d, x[15], 0x1fa27cf8, 16);
    StepH2(15, st, x, State(b, c, d, a), 2, 0xc4ac5665, 23);
    b := Step(b, H2(c, d, a), c, x[2], 0xc4ac5665, 23);
    r := State(a, b, c, d);
  }

  lemma Constants4()
    ensures Index(3, 0) == 0 && T(3, 0) == 0xf4292244 && Shift(3, 0) == 6
    ensures Index(3, 1) == 7 && T(3, 1) == 0x432aff97 && Shift(3, 1) == 10
    ensures Index(3, 2) == 14 && T(3, 2) == 0xab9423a7 && Shift(3, 2) == 15
    ensures Index(3, 3) == 5 && T(3, 3) == 0xfc93a039 && Shift(3, 3) == 21
    ensures Index(3, 4) == 12 && T(3, 4) == 0x655b59c3 && Shift(3, 4) == 6
    ensures Index(3, 5) == 3 && T(3, 5) == 0x8f0ccc92 && Shift(3, 5) == 10
    ensures Index(3, 6) == 10 && T(3, 6) == 0xffeff47d && Shift(3, 6) == 15
    ensures Index(3, 7) == 1 && T(3, 7) == 0x85845dd1 && Shift(3, 7) == 21
    ensures Index(3, 8) == 8 && T(3, 8) == 0x6fa87e4f && Shift(3, 8) == 6
    ensures Index(3, 9) == 15 && T(3, 9) == 0xfe2ce6e0 && Shift(3, 9) == 10
    ensures Index(3, 10) == 6 && T(3, 10) == 0xa3014314 && Shift(3, 10) == 15
    ensures Index(3, 11) == 13 && T(3, 11) == 0x4e0811a1 && Shift(3, 11) == 21
    ensures Index(3, 12) == 4 && T(3, 12) == 0xf7537e82 && Shift(3, 12) == 6
    ensures Index(3, 13) == 11 && T(3, 13) == 0xbd3af235 && Shift(3, 13) == 10
    ensures Index(3, 14) == 2 && T(3, 14) == 0x2ad7d2bb && Shift(3, 14) == 15
    ensures Index(3, 15) == 9 && T(3, 15) == 0xeb86d391 && Shift(3, 15) == 21
  {
  }

  method Round4(st: State, x: seq<word>) returns (r: State)
    requires |x| == 16
    ensures r == Round(3, st, x)
  {
    Constants4();
    var a, b, c, d := st.a, st.b, st.c, st.d;
    StepI(0, st, x, State(a, b, c, d), 0, 0xf4292244, 6);
    a := Step(a, I(b, c, d), b, x[0], 0xf4292244, 6);
    StepI(1, st, x, State(d, a, b, c), 7, 0x432aff97, 10);
    d := Step(d, I(a, b, c), a, x[7], 0x432aff97, 10);
    StepI(2, st, x, State(c, d, a, b), 14, 0xab9423a7, 15);
    c := Step(c, I(d, a, b), d, x[14], 0xab9423a7, 15);
    StepI(3, st, x, State(b, c, d, a), 5, 0xfc93a039, 21);
    b := Step(b, I(c, d, a), c, x[5], 0xfc93a039, 21);
    StepI(4, st, x, State(a, b, c, d), 12, 0x655b59c3, 6);
    a := Step(a, I(b, c, d), b, x[12], 0x655b59c3, 6);
    StepI(5, st, x, State(d, a, b, c), 3, 0x8f0ccc92, 10);
    d := Step(d, I(a, b, c), a, x[3], 0x8f0ccc92, 10);
    StepI(6, st, x, State(c, d, a, b), 10, 0xffeff47d, 15);
    c := Step(c, I(d, a, b), d, x[10], 0xffeff47d, 15);
    StepI(7, st, x, State(b, c, d, a), 1, 0x85845dd1, 21);
    b := Step(b, I(c, d, a), c, x[1], 0x85845dd1, 21);
    StepI(8, st, x, State(a, b, c, d), 8, 0x6fa87e4f, 6);
    a := Step(a, I(b, c, d), b, x[8], 0x6fa87e4f, 6);
    StepI(9, st, x, State(d, a, b, c), 15, 0xfe2ce6e0, 10);
    d := Step(d, I(a, b, c), a, x[15], 0xfe2ce6e0, 10);
    StepI(10, st, x, State(c, d, a, b), 6, 0xa3014314, 15);
    c := Step(c, I(d, a, b), d, x[6], 0xa3014314, 15);
    StepI(11, st, x, State(b, c, d, a), 13, 0x4e0811a1, 21);
    b := Step(b, I(c, d, a), c, x[13], 0x4e0811a1, 21);
    StepI(12, st, x, State(a, b, c, d), 4, 0xf7537e82, 6);
    a := Step(a, I(b, c, d), b, x[4], 0xf7537e82, 6);
    StepI(13, st, x, State(d, a, b, c), 11, 0xbd3af235, 10);
    d := Step(d, I(a, b, c), a, x[11], 0xbd3af235, 10);
    StepI(14, st, x, State(c, d, a, b), 2, 0x2ad7d2bb, 15);
    c := Step(c, I(d, a, b), d, x[2], 0x2ad7d2bb, 15);
    StepI(15, st, x, State(b, c, d, a), 9, 0xeb86d391, 21);
    b := Step(b, I(c, d, a), c, x[9], 0xeb86d391, 21);
    r := State(a, b, c, d);
  }
}
