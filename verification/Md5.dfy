/** The streaming interface: a message arrives in pieces of any size. */
module Md5 {
  import opened Bytes
  import opened Words
  import opened Md5Spec
  import opened Md5Block

  /** The length counter: `lo` has 29 bits, `hi` the 32 above them. */
  const LO := 0x2000_0000

  const TOTAL := 0x2000_0000_0000_0000

  ghost predicate Counts(hi: word, lo: word, length: nat) {
    lo < LO && (hi * LO + lo) % TOTAL == length % TOTAL
  }

  lemma {:induction false} CompressConcat(st: State, x: seq<byte>, y: seq<byte>, blocks: nat)
    requires |x| == 64 * blocks
    ensures CompressAll(st, x + y) == CompressAll(CompressAll(st, x), y)
    decreases blocks
  {
    if blocks == 0 {
      assert x + y == y;
    } else {
      assert (x + y)[..64] == x[..64];
      assert (x + y)[64..] == x[64..] + y;
      CompressConcat(Compress(st, x[..64]), x[64..], y, blocks - 1);
    }
  }

  /** The carry test: the masked sum is below the old value exactly when it wrapped. */
  lemma CarryTest(lo: nat, size: nat)
    requires lo < LO
    ensures var sum := (lo + size) % LO;
            (lo + size) / LO == size / LO + (if sum < lo then 1 else 0)
  {
  }

  /** A size is a 64-bit number, and so is the sum that is masked. */
  lemma MaskedSum(n: nat)
    ensures n % 0x1_0000_0000_0000_0000 % LO == n % LO
  {
  }

  lemma CounterAdvances(hi: word, lo: word, length: nat, size: nat)
    requires Counts(hi, lo, length)
    ensures Counts((hi + (lo + size) / LO) % WORD, (lo + size) % LO, length + size)
  {
    var q, r := (lo + size) / LO, (lo + size) % LO;
    var h := (hi + q) % WORD;
    assert lo + size == q * LO + r;
    var w := (hi + q) / WORD;
    assert hi + q == w * WORD + h;
    assert h * LO + r + w * TOTAL == hi * LO + lo + size;
    AddMultiple(h * LO + r, w);
    SameRemainder(hi * LO + lo, length, size);
  }

  lemma CounterMoves(hi: word, lo: word, newHi: word, newLo: word, length: nat, size: nat)
    requires Counts(hi, lo, length) && lo % 64 == length % 64
    requires newLo == (lo + size) % 0x1_0000_0000_0000_0000 % LO
    requires newHi == (if newLo < lo then (hi + 1) % WORD + size / LO else hi + size / LO) % WORD
    ensures Counts(newHi, newLo, length + size) && newLo % 64 == (length + size) % 64
  {
    MaskedSum(lo + size);
    CarryTest(lo, size);
    CarriesAdd(hi, size / LO);
    CounterAdvances(hi, lo, length, size);
    LowBits(lo, length, size);
  }

  lemma CarriesAdd(hi: nat, q: nat)
    ensures ((hi + 1) % WORD + q) % WORD == (hi + 1 + q) % WORD
  {
  }

  lemma AddMultiple(n: nat, w: nat)
    ensures (n + w * TOTAL) % TOTAL == n % TOTAL
  {
  }

  lemma SameRemainder(m: nat, n: nat, k: nat)
    requires m % TOTAL == n % TOTAL
    ensures (m + k) % TOTAL == (n + k) % TOTAL
  {
  }

  lemma LowBits(lo: nat, length: nat, size: nat)
    requires lo % 64 == length % 64
    ensures (lo + size) % LO % 64 == (length + size) % 64
  {
  }

  /** `st` is the chaining value after the first `n` blocks of the message. */
  ghost predicate Absorbed(st: State, msg: seq<byte>, n: nat) {
    64 * n <= |msg| && st == CompressAll(INITIAL, msg[..64 * n])
  }

  lemma AbsorbMore(st: State, msg: seq<byte>, n: nat, data: seq<byte>, m: nat)
    requires Absorbed(st, msg, n) && |data| == 64 * m
    requires 64 * n + |data| <= |msg| && data == msg[64 * n..64 * n + |data|]
    ensures Absorbed(CompressAll(st, data), msg, n + m)
  {
    CompressConcat(INITIAL, msg[..64 * n], data, n);
    assert msg[..64 * n] + data == msg[..64 * (n + m)];
  }

  lemma AbsorbedStays(st: State, msg: seq<byte>, n: nat, data: seq<byte>)
    requires Absorbed(st, msg, n)
    ensures Absorbed(st, msg + data, n)
  {
    assert (msg + data)[..64 * n] == msg[..64 * n];
  }

  class Md5Ctx {
    var lo: word
    var hi: word
    var a: word
    var b: word
    var c: word
    var d: word
    const buffer: array<byte>
    /** Everything added since the last initialisation. */
    ghost var msg: seq<byte>

    /** All whole blocks of the message went through `Body`, the bytes after them wait in the buffer. */
    ghost predicate Holds()
      reads this, buffer
    {
      buffer.Length == 64 && buffer[..|msg| % 64] == msg[|msg| - |msg| % 64..] && Absorbed(Chain(), msg, |msg| / 64)
    }

    ghost predicate Valid()
      reads this, buffer
    {
      Counts(hi, lo, |msg|) && lo % 64 == |msg| % 64 && Holds()
    }

    function Chain(): State
      reads this
    {
      State(a, b, c, d)
    }

    constructor ()
      ensures Valid() && msg == [] && fresh(this) && fresh(buffer)
    {
      buffer := new byte[64](_ => 0);
      new;
      Init();
    }

    method Init()
      requires buffer.Length == 64
      modifies this
      ensures Valid() && msg == []
    {
      a, b, c, d := 0x67452301, 0xefcdab89, 0x98badcfe, 0x10325476;
      lo, hi := 0, 0;
      msg := [];
      assert CompressAll(INITIAL, []) == INITIAL;
    }

    method Body(data: seq<byte>)
      requires |data| > 0 && |data| % 64 == 0
      modifies this`a, this`b, this`c, this`d
      ensures Chain() == CompressAll(old(Chain()), data)
    {
      var rest := data;
      while |rest| > 0
        invariant |rest| % 64 == 0
        invariant CompressAll(Chain(), rest) == CompressAll(old(Chain()), data)
        decreases |rest|
      {
        var saved := State(a, b, c, d);
        var x := BlockWords(rest[..64]);
        var r := Round1(saved, x);
        r := Round2(r, x);
        r := Round3(r, x);
        r := Round4(r, x);
        a, b, c, d := Add(saved.a, r.a), Add(saved.b, r.b), Add(saved.c, r.c), Add(saved.d, r.d);
        assert Chain() == Compress(saved, rest[..64]);
        rest := rest[64..];
      }
    }

    method Copy(at: nat, data: seq<byte>)
      requires at + |data| <= buffer.Length
      modifies buffer
      ensures buffer[..] == old(buffer[..at]) + data + old(buffer[at + |data|..])
    {
      forall i | 0 <= i < |data| {
        buffer[at + i] := data[i];
      }
    }

    method Update(data: seq<byte>)
      requires Valid() && |data| < 0x1_0000_0000_0000_0000
      modifies this, buffer
      ensures Valid() && msg == old(msg) + data
    {
      var size := |data|;
      var savedLo := lo;
      lo := (savedLo + size) % 0x1_0000_0000_0000_0000 % LO;
      if lo < savedLo { hi := (hi + 1) % WORD; }
      hi := (hi + size / LO) % WORD;
      CounterMoves(old(hi), savedLo, hi, lo, |msg|, size);
      Gather(savedLo % 64, data);
    }

    /** The rest of MD5_Update: first the block already begun, then whole blocks, then what is left over. */
    method Gather(used: nat, data: seq<byte>)
      requires Holds() && used == |msg| % 64
      modifies this`a, this`b, this`c, this`d, this`msg, buffer
      ensures Holds() && msg == old(msg) + data
    {
      ghost var done := |msg| / 64;
      AbsorbedStays(Chain(), msg, done, data);
      Tail(msg, data);
      msg := msg + data;
      if used == 0 {
        Bulk(data, done);
      } else if |data| < 64 - used {
        Copy(used, data);
        Kept(done, used, data);
      } else {
        Copy(used, data[..64 - used]);
        Complete(done, used, data);
        Bulk(data[64 - used..], done + 1);
      }
    }

    lemma Kept(done: nat, used: nat, data: seq<byte>)
      requires buffer.Length == 64 && used + |data| < 64 && Absorbed(Chain(), msg, done)
      requires msg[64 * done..] == buffer[..used] + data && buffer[used..used + |data|] == data
      ensures Holds()
    {
      Quotients(|msg|, done, used + |data|);
      assert buffer[..used + |data|] == buffer[..used] + data;
    }

    method Complete(ghost done: nat, ghost used: nat, ghost data: seq<byte>)
      requires buffer.Length == 64 && used < 64 <= used + |data| && Absorbed(Chain(), msg, done)
      requires msg[64 * done..] == buffer[..used] + data && buffer[used..] == data[..64 - used]
      modifies this`a, this`b, this`c, this`d
      ensures Absorbed(Chain(), msg, done + 1) && msg[64 * (done + 1)..] == data[64 - used..]
    {
      FirstBlock(msg, done, used, data, buffer[..]);
      AbsorbMore(Chain(), msg, done, buffer[..], 1);
      Body(buffer[..]);
    }

    method Bulk(data: seq<byte>, ghost done: nat)
      requires buffer.Length == 64 && Absorbed(Chain(), msg, done) && data == msg[64 * done..]
      modifies this`a, this`b, this`c, this`d, buffer
      ensures Holds()
    {
      var whole := |data| - |data| % 64;
      ghost var n := done + whole / 64;
      if |data| >= 64 {
        AbsorbMore(Chain(), msg, done, data[..whole], whole / 64);
        Body(data[..whole]);
      }
      assert Absorbed(Chain(), msg, n) && data[whole..] == msg[64 * n..];
      Copy(0, data[whole..]);
      Quotients(|msg|, n, |data[whole..]|);
    }

    /** A full buffer goes through `Body`. */
    method AbsorbBuffer(ghost done: nat)
      requires buffer.Length == 64 && Absorbed(Chain(), msg, done) && buffer[..] <= msg[64 * done..]
      modifies this`a, this`b, this`c, this`d
      ensures Absorbed(Chain(), msg, done + 1) && msg[64 * (done + 1)..] == msg[64 * done..][64..]
    {
      AbsorbNext(Chain(), msg, done, buffer[..]);
      Body(buffer[..]);
    }

    method Final() returns (digest: seq<byte>)
      requires Valid()
      modifies this, buffer
      ensures digest == Digest(old(msg))
      ensures lo == hi == 0 && Chain() == State(0, 0, 0, 0) && buffer[..] == Zeros(64)
    {
      ghost var length := |msg|;
      var used, done := FirstPadding();
      Finish(used, 64 - used, buffer[..used], done, length);
      digest := StateBytes(State(a, b, c, d));
      Clear();
    }

    method Clear()
      requires buffer.Length == 64
      modifies this`a, this`b, this`c, this`d, this`lo, this`hi, buffer
      ensures lo == hi == 0 && Chain() == State(0, 0, 0, 0) && buffer[..] == Zeros(64)
    {
      a, b, c, d, lo, hi := 0, 0, 0, 0, 0, 0;
      Copy(0, Zeros(64));
    }

    /** The 0x80, and zeros if they go on through another block: `used` bytes of the last block are there. */
    method FirstPadding() returns (used: nat, ghost done: nat)
      requires Valid()
      modifies this`a, this`b, this`c, this`d, this`msg, buffer
      ensures msg == Padded(old(msg)) && used <= 56 && Absorbed(Chain(), msg, done)
      ensures msg[64 * done..] == buffer[..used] + Zeros(56 - used) + LengthBytes(|old(msg)|)
    {
      ghost var length := |msg|;
      done := |msg| / 64;
      used := Mark(lo % 64);
      var available := 64 - used;
      if available < 8 {
        Spill(used, available, buffer[..used], done, length);
        done, used := done + 1, 0;
      }
    }

    /** The 0x80 behind the message. */
    method Mark(used: nat) returns (used': nat)
      requires Holds() && used == |msg| % 64
      modifies this`msg, buffer
      ensures msg == Padded(old(msg)) && used' == used + 1 && Absorbed(Chain(), msg, |old(msg)| / 64)
      ensures msg[64 * (|old(msg)| / 64)..] == buffer[..used'] + Zeros(ZeroCount(|old(msg)|)) + LengthBytes(|old(msg)|)
    {
      ghost var tail := buffer[..used];
      PaddedSplit(Chain(), msg);
      msg := Padded(msg);
      Copy(used, [0x80]);
      used' := used + 1;
      assert buffer[..used'] == tail + [0x80];
    }

    /** Fewer than eight bytes are left for the length: the zeros go on through another block. */
    method Spill(used: nat, available: nat, ghost tail: seq<byte>, ghost done: nat, ghost length: nat)
      requires buffer.Length == 64 && available < 8 && used == |tail| == 64 - available == length % 64 + 1
      requires buffer[..used] == tail
      requires Absorbed(Chain(), msg, done)
      requires msg[64 * done..] == tail + Zeros(ZeroCount(length)) + LengthBytes(length)
      modifies this`a, this`b, this`c, this`d, buffer
      ensures Absorbed(Chain(), msg, done + 1)
      ensures msg[64 * (done + 1)..] == Zeros(56) + LengthBytes(length)
    {
      ShortOfRoom(length, tail, available);
      Copy(used, Zeros(available));
      assert buffer[..] == tail + Zeros(available);
      AbsorbBuffer(done);
    }

    /** The last block: zeros up to its last eight bytes, which hold the length. */
    method Finish(used: nat, available: nat, ghost tail: seq<byte>, ghost done: nat, ghost length: nat)
      requires buffer.Length == 64 && available >= 8 && used == |tail| == 64 - available && buffer[..used] == tail
      requires Absorbed(Chain(), msg, done) && Counts(hi, lo, length)
      requires msg[64 * done..] == tail + Zeros(available - 8) + LengthBytes(length)
      modifies this`a, this`b, this`c, this`d, this`lo, buffer
      ensures Chain() == CompressAll(INITIAL, msg)
    {
      Copy(used, Zeros(available - 8));
      assert buffer[..56] == tail + Zeros(available - 8);
      PutLength(length);
      AbsorbBuffer(done);
      AllAbsorbed(Chain(), msg, done + 1);
    }

    /** The length in bits, in the last eight bytes. */
    method PutLength(ghost length: nat)
      requires buffer.Length == 64 && Counts(hi, lo, length)
      modifies this`lo, buffer
      ensures buffer[..] == old(buffer[..56]) + LengthBytes(length)
    {
      ghost var front := buffer[..56];
      CounterBytes(hi, lo, length);
      lo := lo * 8 % WORD;
      PutWord(56, lo);
      PutWord(60, hi);
      assert buffer[..] == front + (ToBytes(lo, 4) + ToBytes(hi, 4));
    }

    method PutWord(at: nat, w: word)
      requires at + 4 <= buffer.Length
      modifies buffer
      ensures buffer[..] == old(buffer[..at]) + ToBytes(w, 4) + old(buffer[at + 4..])
    {
      buffer[at] := w % 0x100;
      buffer[at + 1] := w / 0x100 % 0x100;
      buffer[at + 2] := w / 0x1_0000 % 0x100;
      buffer[at + 3] := w / 0x100_0000 % 0x100;
      FourBytes(w);
    }
  }

  /** The counter, shifted left by three bits across its two words, is the length in bits. */
  lemma CounterBytes(hi: word, lo: word, length: nat)
    requires Counts(hi, lo, length)
    ensures lo * 8 < WORD && ToBytes(lo * 8 % WORD, 4) + ToBytes(hi, 4) == LengthBytes(length)
  {
    InBits(hi, lo, length);
    var low: word := ShiftedCount(lo);
    EightBytes(low, hi);
  }

  lemma ShiftedCount(lo: word) returns (low: word)
    requires lo < LO
    ensures low == lo * 8 == lo * 8 % WORD
  {
    low := lo * 8;
  }

  lemma EightBytes(low: word, high: word)
    ensures ToBytes(low, 4) + ToBytes(high, 4) == ToBytes(low + high * WORD, 8)
  {
    Powers();
    BytesConcat(low, high, 4, 4);
  }

  lemma InBits(hi: word, lo: word, length: nat)
    requires Counts(hi, lo, length)
    ensures 8 * length % 0x1_0000_0000_0000_0000 == lo * 8 + hi * WORD
  {
    EightTimes(hi * LO + lo, length);
  }

  lemma EightTimes(count: nat, length: nat)
    requires count < TOTAL && count == length % TOTAL
    ensures 8 * length % (8 * TOTAL) == 8 * count
  {
    var q := length / TOTAL;
    assert 8 * length == 8 * count + q * (8 * TOTAL);
    assert 8 * count < 8 * TOTAL;
  }

  lemma {:induction false} BytesConcat(low: nat, high: nat, m: nat, n: nat)
    requires low < Pow256(m)
    ensures ToBytes(low + high * Pow256(m), m + n) == ToBytes(low, m) + ToBytes(high, n)
    decreases m
  {
    if m > 0 {
      var all := low + high * Pow256(m);
      assert high * Pow256(m) == 256 * (high * Pow256(m - 1));
      assert all % 256 == low % 256 && all / 256 == low / 256 + high * Pow256(m - 1);
      BytesConcat(low / 256, high, m - 1, n);
    }
  }

  lemma PaddedSplit(st: State, msg: seq<byte>)
    requires Absorbed(st, msg, |msg| / 64)
    ensures Absorbed(st, Padded(msg), |msg| / 64)
    ensures Padded(msg)[64 * (|msg| / 64)..]
         == msg[|msg| - |msg| % 64..] + [0x80] + Zeros(ZeroCount(|msg|)) + LengthBytes(|msg|)
  {
    var pad := [0x80] + Zeros(ZeroCount(|msg|)) + LengthBytes(|msg|);
    assert Padded(msg) == msg + pad;
    AbsorbedStays(st, msg, |msg| / 64, pad);
    Tail(msg, pad);
  }

  /** Fewer than eight bytes are left after the 0x80: the zeros go on through the next block. */
  lemma ShortOfRoom(length: nat, tail: seq<byte>, available: nat)
    requires |tail| == length % 64 + 1 == 64 - available && available < 8
    ensures tail + Zeros(ZeroCount(length)) + LengthBytes(length)
         == tail + Zeros(available) + (Zeros(56) + LengthBytes(length))
  {
    assert Zeros(ZeroCount(length)) == Zeros(available) + Zeros(56);
  }

  lemma AbsorbNext(st: State, msg: seq<byte>, n: nat, block: seq<byte>)
    requires Absorbed(st, msg, n) && |block| == 64 && block <= msg[64 * n..]
    ensures Absorbed(CompressAll(st, block), msg, n + 1)
    ensures msg[64 * (n + 1)..] == msg[64 * n..][64..]
  {
    assert msg[64 * n..][..64] == msg[64 * n..64 * n + 64];
    AbsorbMore(st, msg, n, block, 1);
  }

  lemma AllAbsorbed(st: State, msg: seq<byte>, n: nat)
    requires Absorbed(st, msg, n) && msg[64 * n..] == []
    ensures st == CompressAll(INITIAL, msg)
  {
    assert msg[..64 * n] == msg;
  }

  lemma Quotients(length: nat, n: nat, rest: nat)
    requires length == 64 * n + rest && rest < 64
    ensures length / 64 == n && length % 64 == rest
  {
  }

  lemma Tail(msg: seq<byte>, data: seq<byte>)
    ensures (msg + data)[64 * (|msg| / 64)..] == msg[|msg| - |msg| % 64..] + data
  {
  }

  lemma FirstBlock(msg: seq<byte>, n: nat, used: nat, data: seq<byte>, block: seq<byte>)
    requires used < 64 <= used + |data| && 64 * n <= |msg|
    requires |block| == 64 && msg[64 * n..] == block[..used] + data && block[used..] == data[..64 - used]
    ensures 64 * n + 64 <= |msg| && block == msg[64 * n..64 * n + 64]
    ensures msg[64 * (n + 1)..] == data[64 - used..]
  {
    var t := msg[64 * n..];
    assert t[..64] == block;
    assert t[64..] == data[64 - used..];
  }

  function Joined(pieces: seq<seq<byte>>): seq<byte> {
    if pieces == [] then [] else Joined(pieces[..|pieces| - 1]) + pieces[|pieces| - 1]
  }

  /** However a message is cut into pieces, its digest is that of the whole. */
  method DigestOfPieces(pieces: seq<seq<byte>>) returns (digest: seq<byte>)
    requires forall i :: 0 <= i < |pieces| ==> |pieces[i]| < 0x1_0000_0000_0000_0000
    ensures digest == Digest(Joined(pieces))
  {
    var ctx := new Md5Ctx();
    for i := 0 to |pieces|
      invariant fresh(ctx) && fresh(ctx.buffer) && ctx.Valid() && ctx.msg == Joined(pieces[..i])
    {
      ctx.Update(pieces[i]);
      assert pieces[..i + 1][..i] == pieces[..i];
    }
    assert pieces[..|pieces|] == pieces;
    digest := ctx.Final();
  }
}
