/**
  xxHash in 32 bits, one-shot and streaming.

  Words are bit-vectors, whose arithmetic wraps around as the source's unsigned integers do. What a round or an
  avalanche computes plays no part in the proofs: the streaming state agrees with the one-shot function because
  both take the input by whole stripes and what remains by words and bytes.
*/
module XxHash32 {
  import opened Division
  import opened Lz4Format
  import opened Stripes

  const PRIME_1: bv32 := 2654435761
  const PRIME_2: bv32 := 2246822519
  const PRIME_3: bv32 := 3266489917
  const PRIME_4: bv32 := 668265263
  const PRIME_5: bv32 := 374761393
  const MODULUS := 0x1_0000_0000

  function Word(s: Bytes): bv32 {
    (Little(s) % MODULUS) as bv32
  }

  function Round(acc: bv32, input: bv32): bv32 {
    (acc + input * PRIME_2).RotateLeft(13) * PRIME_1
  }

  function Avalanche(h: bv32): bv32 {
    var h1 := (h ^ (h >> 15)) * PRIME_2;
    var h2 := (h1 ^ (h1 >> 13)) * PRIME_3;
    h2 ^ (h2 >> 16)
  }

  function Start(seed: bv32): Lanes<bv32> {
    Lanes(seed + PRIME_1 + PRIME_2, seed + PRIME_2, seed, seed - PRIME_1)
  }

  lemma StartSeed(seed: bv32)
    ensures Start(seed).v3 == seed
  {
  }

  /** Only a whole stripe of 16 bytes changes the lanes. */
  function Stripe(v: Lanes<bv32>, s: Bytes): Lanes<bv32> {
    if |s| != 16 then v else
      Lanes(Round(v.v1, Word(s[..4])), Round(v.v2, Word(s[4..8])), Round(v.v3, Word(s[8..12])),
            Round(v.v4, Word(s[12..16])))
  }

  function Converge(v: Lanes<bv32>): bv32 {
    v.v1.RotateLeft(1) + v.v2.RotateLeft(7) + v.v3.RotateLeft(12) + v.v4.RotateLeft(18)
  }

  function Process4(h: bv32, word: bv32): bv32 {
    (h + word * PRIME_3).RotateLeft(17) * PRIME_4
  }

  function Process1(h: bv32, b: byte): bv32 {
    (h + (b as bv32) * PRIME_5).RotateLeft(11) * PRIME_1
  }

  /** Words, then bytes. */
  function Tail(h: bv32, s: Bytes): bv32
    decreases |s|
  {
    if |s| >= 4 then Tail(Process4(h, Word(s[..4])), s[4..])
    else if |s| > 0 then Tail(Process1(h, s[0]), s[1..])
    else h
  }

  /** What remains to be done at `p`. */
  function TailAt(h: bv32, s: Bytes, p: nat, end: nat): bv32
    requires p <= end <= |s|
  {
    Tail(h, s[p..end])
  }

  lemma TailWhole(h: bv32, s: Bytes, end: nat)
    requires end <= |s|
    ensures TailAt(h, s, 0, end) == Tail(h, s[..end])
  {
  }

  lemma TailDone(h: bv32, s: Bytes, end: nat)
    requires end <= |s|
    ensures TailAt(h, s, end, end) == h
  {
  }

  function AddLength(h: bv32, n: nat): bv32
    requires n < MODULUS
  {
    h + (n as bv32)
  }

  /** The hash of `s`. */
  function Hash(s: Bytes, seed: bv32): bv32 {
    var h := if |s| >= 16 then Converge(Fold(Stripe, 16, Start(seed), s)) else seed + PRIME_5;
    Avalanche(Tail(AddLength(h, |s| % MODULUS), Rest(16, s)))
  }

  /** `PROCESS4` at `p`. */
  method TakeWord(h: bv32, s: Bytes, p: nat, end: nat) returns (h': bv32, p': nat)
    requires p + 4 <= end <= |s|
    ensures p' == p + 4 && TailAt(h', s, p', end) == TailAt(h, s, p, end)
  {
    hide Process4, Word;
    h', p' := Process4(h, Word(s[p..p + 4])), p + 4;
    SliceOfSlice(s, p, end, 0, 4);
    SliceOfSlice(s, p, end, 4, end - p);
    assert s[p..end][4..] == s[p..end][4..end - p];
  }

  /** `PROCESS1` at `p`. */
  method TakeByte(h: bv32, s: Bytes, p: nat, end: nat) returns (h': bv32, p': nat)
    requires p < end <= |s| && end < p + 4
    ensures p' == p + 1 && TailAt(h', s, p', end) == TailAt(h, s, p, end)
  {
    hide Process1, Process4, Word;
    h', p' := Process1(h, s[p]), p + 1;
    SubSlice(s, p, p + 1, end);
  }

  /** `XXH32_finalize`: the unrolled switch takes just the words and bytes there are. */
  method Finalize(h0: bv32, s: Bytes, len: nat) returns (h: bv32)
    requires len % 16 <= |s|
    ensures h == Avalanche(Tail(h0, s[..len % 16]))
  {
    hide TailAt, Tail, Avalanche;
    var c, p := len % 16, 0;
    h := h0;
    TailWhole(h, s, c);
    if c == 12 || c == 8 || c == 4 {
      if c == 12 { h, p := TakeWord(h, s, p, c); }
      if c == 12 || c == 8 { h, p := TakeWord(h, s, p, c); }
      h, p := TakeWord(h, s, p, c);
    } else if c == 13 || c == 9 || c == 5 {
      if c == 13 { h, p := TakeWord(h, s, p, c); }
      if c == 13 || c == 9 { h, p := TakeWord(h, s, p, c); }
      h, p := TakeWord(h, s, p, c);
      h, p := TakeByte(h, s, p, c);
    } else if c == 14 || c == 10 || c == 6 {
      if c == 14 { h, p := TakeWord(h, s, p, c); }
      if c == 14 || c == 10 { h, p := TakeWord(h, s, p, c); }
      h, p := TakeWord(h, s, p, c);
      h, p := TakeByte(h, s, p, c);
      h, p := TakeByte(h, s, p, c);
    } else {
      if c == 15 { h, p := TakeWord(h, s, p, c); }
      if c == 15 || c == 11 { h, p := TakeWord(h, s, p, c); }
      if c == 15 || c == 11 || c == 7 { h, p := TakeWord(h, s, p, c); }
      if c == 15 || c == 11 || c == 7 || c == 3 { h, p := TakeByte(h, s, p, c); }
      if c == 15 || c == 11 || c == 7 || c == 3 || c == 2 { h, p := TakeByte(h, s, p, c); }
      if c != 0 { h, p := TakeByte(h, s, p, c); }
    }
    TailDone(h, s, c);
    h := Avalanche(h);
  }

  /** The loop of both forms: every whole stripe from `start` on. */
  method TakeStripes(v0: Lanes<bv32>, input: Bytes, start: nat) returns (v: Lanes<bv32>, p: nat)
    requires start <= |input|
    ensures start <= p <= |input| < p + 16 && (p - start) % 16 == 0
    ensures v == Fold(Stripe, 16, v0, input[start..p])
  {
    hide Stripe, Fold;
    v, p := v0, start;
    FoldNothing(Stripe, 16, v0, input, start);
    while p + 16 <= |input|
      invariant start <= p <= |input| && (p - start) % 16 == 0 && v == Fold(Stripe, 16, v0, input[start..p])
    {
      FoldStripe(Stripe, 16, v0, input[start..p], input[p..p + 16]);
      SliceJoin(input, start, p, p + 16);
      v := Stripe(v, input[p..p + 16]);
      p := p + 16;
    }
  }

  /** `XXH32_endian_align`. */
  method OneShot(input: Bytes, seed: bv32) returns (h: bv32)
    ensures h == Hash(input, seed)
  {
    hide Converge, Tail, Avalanche, Stripe, Start, AddLength, Fold, Rest;
    var p := 0;
    if |input| >= 16 {
      var v;
      v, p := TakeStripes(Start(seed), input, 0);
      h := Converge(v);
    } else {
      h := seed + PRIME_5;
    }
    FoldAll(Stripe, 16, Start(seed), input, p);
    h := AddLength(h, |input| % MODULUS);
    assert input[p..][..|input| - p] == input[p..];
    h := Finalize(h, input[p..], |input| % 16);
  }

  /** The streaming state, `XXH32_state_t`. */
  class State {
    var total: nat
    var large: bool
    var v: Lanes<bv32>
    const mem: array<byte>
    var memsize: nat
    /** The seed, and all input since the state was reset. */
    ghost var seed: bv32
    ghost var all: Bytes

    /** The lanes have taken all whole stripes; the rest is in `mem`. */
    ghost predicate Gathered()
      reads `v, `memsize, `seed, `all, mem
    {
      && mem.Length == 16 && memsize == |all| % 16 && mem[..memsize] == Rest(16, all)
      && v == Fold(Stripe, 16, Start(seed), all)
    }

    /** The length is known modulo 2^32, and whether a stripe has ever been complete. */
    ghost predicate Counted()
      reads `total, `large, `all
    {
      total == |all| % MODULUS && (large <==> |all| >= 16)
    }

    ghost predicate Valid()
      reads this, mem
    {
      Gathered() && Counted()
    }

    /** `XXH32_createState` and `XXH32_reset`. */
    constructor (seed: bv32)
      ensures Valid() && fresh(mem) && this.seed == seed && all == []
    {
      total, large, memsize, all := 0, false, 0, [];
      v := Start(seed);
      mem := new byte[16];
      this.seed := seed;
    }

    lemma Fresh()
      requires mem.Length == 16 && memsize == 0 && all == [] && v == Start(seed) && total == 0 && !large
      ensures Valid()
    {
      hide Stripe, Start;
      assert mem[..0] == Rest(16, []);
    }

    method Reset(seed: bv32)
      requires mem.Length == 16
      modifies this
      ensures Valid() && this.seed == seed && all == []
    {
      hide Fold, Stripe, Start, Rest;
      total, large, memsize, all := 0, false, 0, [];
      v := Start(seed);
      this.seed := seed;
      Fresh();
    }

    /** `memcpy` into the buffer. */
    method Store(at: nat, bytes: Bytes)
      requires at + |bytes| <= mem.Length
      modifies mem
      ensures mem[..at + |bytes|] == old(mem[..at]) + bytes
    {
      var i := 0;
      while i < |bytes|
        invariant i <= |bytes| && mem[..at + i] == old(mem[..at]) + bytes[..i]
      {
        mem[at + i] := bytes[i];
        i := i + 1;
      }
    }

    method Count(len: nat, ghost input: Bytes)
      requires Counted() && len == |input|
      modifies `total, `large
      ensures total == |all + input| % MODULUS && (large <==> |all + input| >= 16)
    {
      ModOfCount(|all|, len, MODULUS);
      total := (total + len) % MODULUS;
      large := large || len >= 16 || total >= 16;
    }

    /** `XXH32_update`. */
    method Update(input: Bytes)
      requires Valid()
      modifies this, mem
      ensures Valid() && all == old(all) + input && seed == old(seed)
    {
      hide Gathered;
      Count(|input|, input);
      BufferSize();
      if memsize + |input| < 16 { Keep(input); } else { Absorb(input); }
      all := all + input;
      NowGathered();
    }

    lemma NowGathered()
      requires mem.Length == 16 && memsize == |all| % 16 && mem[..memsize] == Rest(16, all)
      requires v == Fold(Stripe, 16, Start(seed), all)
      ensures Gathered()
    {
    }

    lemma BufferSize()
      requires Gathered()
      ensures mem.Length == 16 && memsize < 16
    {
    }

    /** The lanes and the buffer hold `whole` and `rest`. */
    ghost predicate Holds(whole: Bytes, rest: Bytes)
      reads `v, `memsize, `seed, mem
    {
      && mem.Length == 16 && |whole| % 16 == 0 && |rest| < 16 && memsize == |rest| && mem[..memsize] == rest
      && v == Fold(Stripe, 16, Start(seed), whole)
    }

    lemma Split() returns (whole: Bytes, rest: Bytes)
      requires Gathered()
      ensures Holds(whole, rest) && all == whole + rest
    {
      whole := Whole(Stripe, 16, Start(seed), all);
      rest := Rest(16, all);
    }

    lemma Joined(whole: Bytes, rest: Bytes, now: Bytes)
      requires Holds(whole, rest) && now == whole + rest
      ensures memsize == |now| % 16 && mem[..memsize] == Rest(16, now) && v == Fold(Stripe, 16, Start(seed), now)
    {
      FoldShort(Stripe, 16, Start(seed), whole, rest);
    }

    /** All of the input fits in the buffer. */
    method Keep(input: Bytes)
      requires Gathered() && memsize + |input| < 16
      modifies `memsize, mem
      ensures memsize == |all + input| % 16 && mem[..memsize] == Rest(16, all + input)
      ensures mem.Length == 16 && v == Fold(Stripe, 16, Start(seed), all + input)
    {
      hide Gathered, Fold, Rest, Stripe, Start;
      ghost var whole, rest := Split();
      Store(memsize, input);
      memsize := memsize + |input|;
      assert all + input == whole + (rest + input);
      Joined(whole, rest + input, all + input);
    }

    /** The buffer is completed by the beginning of the input, and taken. */
    method CompleteStripe(input: Bytes, ghost whole: Bytes, ghost rest: Bytes) returns (p: nat)
      requires Holds(whole, rest) && memsize + |input| >= 16
      modifies `v, `memsize, mem
      ensures p <= |input| && Holds(whole + rest + input[..p], []) && memsize == 0
    {
      hide Fold, Stripe, Start;
      p := 0;
      if memsize == 0 {
        assert whole + rest + input[..0] == whole && mem[..0] == [];
      } else {
        p := 16 - memsize;
        Store(memsize, input[..p]);
        FoldStripe(Stripe, 16, Start(seed), whole, rest + input[..p]);
        assert mem[..] == mem[..16] == rest + input[..p];
        v := Stripe(v, mem[..]);
        assert whole + (rest + input[..p]) == whole + rest + input[..p];
        memsize := 0;
        assert mem[..0] == [];
      }
    }

    /** All whole stripes are taken; the buffer keeps what remains. */
    method Absorb(input: Bytes)
      requires Gathered() && memsize + |input| >= 16
      modifies `v, `memsize, mem
      ensures memsize == |all + input| % 16 && mem[..memsize] == Rest(16, all + input)
      ensures mem.Length == 16 && v == Fold(Stripe, 16, Start(seed), all + input)
    {
      hide Gathered, Fold, Rest, Stripe, Start;
      ghost var whole, rest := Split();
      var p := CompleteStripe(input, whole, rest);
      ghost var taken := all + input[..p];
      var q;
      v, q := TakeStripes(v, input, p);
      FoldJoin(Stripe, 16, Start(seed), taken, input[p..q]);
      ModOfSum(|taken|, q - p, 16);
      StripesTaken(all, input, p, q);
      if q < |input| {
        Store(0, input[q..]);
        memsize := |input| - q;
      }
      Joined(taken + input[p..q], input[q..], all + input);
    }

    /** `XXH32_digest`: the one-shot hash of all input since the reset, however it was split; the state is not changed.
        */
    method Digest() returns (h: bv32)
      requires Valid()
      ensures h == Hash(all, seed)
    {
      hide Converge, Avalanche, Stripe, Start, Rest, Tail, Fold, AddLength;
      if |all| < 16 { NoStripe(Stripe, 16, Start(seed), all); }
      if large {
        h := Converge(v);
      } else {
        StartSeed(seed);
        h := v.v3 + PRIME_5;
      }
      h := AddLength(h, total);
      assert mem[..][..memsize] == mem[..memsize];
      h := Finalize(h, mem[..], memsize);
    }
  }

  /** Whatever pieces the input comes in, the streaming hash is the one-shot hash of the whole. */
  method HashInPieces(pieces: seq<Bytes>, seed: bv32) returns (h: bv32)
    ensures h == Hash(Concat(pieces), seed)
  {
    hide Hash;
    var state := new State(seed);
    var i := 0;
    while i < |pieces|
      invariant i <= |pieces| && fresh(state) && fresh(state.mem)
      invariant state.Valid() && state.seed == seed && state.all == Concat(pieces[..i])
    {
      state.Update(pieces[i]);
      assert pieces[..i + 1][..i] == pieces[..i];
      i := i + 1;
    }
    assert pieces[..i] == pieces;
    h := state.Digest();
  }
}
