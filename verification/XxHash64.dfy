/**
  xxHash in 64 bits, one-shot and streaming.

  The total length is kept modulo 2^64 and also tells whether a stripe has ever been complete, which is right as
  long as it has not wrapped around to less than a stripe.
*/
module XxHash64 {
  import opened Division
  import opened Lz4Format
  import opened Stripes

  const PRIME_1: bv64 := 11400714785074694791
  const PRIME_2: bv64 := 14029467366897019727
  const PRIME_3: bv64 := 1609587929392839161
  const PRIME_4: bv64 := 9650029242287828579
  const PRIME_5: bv64 := 2870177450012600261
  const MODULUS := 0x1_0000_0000_0000_0000

  function Word8(s: Bytes): bv64 {
    (Little(s) % MODULUS) as bv64
  }

  function Word4(s: Bytes): bv64 {
    (Little(s) % 0x1_0000_0000) as bv64
  }

  /** Multiplication by a prime, and how it is undone: the primes are odd. */
  function Times1(x: bv64): bv64 {
    x * 11400714785074694791
  }

  function Undo1(x: bv64): bv64 {
    x * 614540362697595703
  }

  function Times2(x: bv64): bv64 {
    x * 14029467366897019727
  }

  function Undo2(x: bv64): bv64 {
    x * 839798700976720815
  }

  function Times3(x: bv64): bv64 {
    x * 1609587929392839161
  }

  function Undo3(x: bv64): bv64 {
    x * 16855272203555305545
  }

  function Round(acc: bv64, input: bv64): bv64 {
    Times1((acc + Times2(input)).RotateLeft(31))
  }

  function MergeRound(acc: bv64, val: bv64): bv64 {
    Times1(acc ^ Round(0, val)) + PRIME_4
  }

  function Shift33(h: bv64): bv64 {
    h ^ (h >> 33)
  }

  function Shift29(h: bv64): bv64 {
    h ^ (h >> 29)
  }

  function Shift32(h: bv64): bv64 {
    h ^ (h >> 32)
  }

  function Avalanche(h: bv64): bv64 {
    Shift32(Times3(Shift29(Times2(Shift33(h)))))
  }

  function Start(seed: bv64): Lanes<bv64> {
    Lanes(seed + PRIME_1 + PRIME_2, seed + PRIME_2, seed, seed - PRIME_1)
  }

  lemma StartSeed(seed: bv64)
    ensures Start(seed).v3 == seed
  {
  }

  /** Only a whole stripe of 32 bytes changes the lanes. */
  function Stripe(v: Lanes<bv64>, s: Bytes): Lanes<bv64> {
    if |s| != 32 then v else
      Lanes(Round(v.v1, Word8(s[..8])), Round(v.v2, Word8(s[8..16])), Round(v.v3, Word8(s[16..24])),
            Round(v.v4, Word8(s[24..32])))
  }

  function Converge(v: Lanes<bv64>): bv64 {
    var h := v.v1.RotateLeft(1) + v.v2.RotateLeft(7) + v.v3.RotateLeft(12) + v.v4.RotateLeft(18);
    MergeRound(MergeRound(MergeRound(MergeRound(h, v.v1), v.v2), v.v3), v.v4)
  }

  function Process8(h: bv64, word: bv64): bv64 {
    Plus(Times1(Rotate27(Mix(h, Round(0, word)))), PRIME_4)
  }

  function Process4(h: bv64, word: bv64): bv64 {
    Plus(Times2(Rotate23(Mix(h, Times1(word)))), PRIME_3)
  }

  function Process1(h: bv64, b: byte): bv64 {
    Times1(Rotate11(Mix(h, ByteWord(b))))
  }

  function ByteWord(b: byte): bv64 {
    (b as bv64) * PRIME_5
  }

  function Mix(h: bv64, x: bv64): bv64 {
    h ^ x
  }

  function Plus(h: bv64, x: bv64): bv64 {
    h + x
  }

  function Rotate27(h: bv64): bv64 {
    h.RotateLeft(27)
  }

  function Rotate23(h: bv64): bv64 {
    h.RotateLeft(23)
  }

  function Rotate11(h: bv64): bv64 {
    h.RotateLeft(11)
  }

  /** Words of eight bytes, then one of four, then bytes. */
  function Tail(h: bv64, s: Bytes): bv64
    decreases |s|
  {
    if |s| >= 8 then Tail(Process8(h, Word8(s[..8])), s[8..])
    else if |s| >= 4 then Tail(Process4(h, Word4(s[..4])), s[4..])
    else if |s| > 0 then Tail(Process1(h, s[0]), s[1..])
    else h
  }

  /** What remains to be done at `p`. */
  function TailAt(h: bv64, s: Bytes, p: nat, end: nat): bv64
    requires p <= end <= |s|
  {
    Tail(h, s[p..end])
  }

  lemma TailWhole(h: bv64, s: Bytes, end: nat)
    requires end <= |s|
    ensures TailAt(h, s, 0, end) == Tail(h, s[..end])
  {
  }

  lemma TailDone(h: bv64, s: Bytes, end: nat)
    requires end <= |s|
    ensures TailAt(h, s, end, end) == h
  {
  }

  function AddLength(h: bv64, n: nat): bv64
    requires n < MODULUS
  {
    Plus(h, n as bv64)
  }

  /** Length and rest of `s` taken in, and the final mix. */
  function Closed(h: bv64, s: Bytes): bv64 {
    Avalanche(Tail(AddLength(h, |s| % MODULUS), Rest(32, s)))
  }

  /** The hash of `s`. */
  function Hash(s: Bytes, seed: bv64): bv64 {
    Closed(if |s| >= 32 then Converge(Fold(Stripe, 32, Start(seed), s)) else Plus(seed, PRIME_5), s)
  }

  // ---------------------------------------------------------------- nothing is lost in the final mix

  // Each step is undone first as it is written out, where the solver simplifies it, and then under its name.

  lemma ProductUndone(x: bv64)
    ensures Undo1(x * 11400714785074694791) == x && Undo2(x * 14029467366897019727) == x
    ensures Undo3(x * 1609587929392839161) == x
  {
  }

  lemma TimesUndone(x: bv64)
    ensures Undo1(Times1(x)) == x && Undo2(Times2(x)) == x && Undo3(Times3(x)) == x
  {
    hide Undo1, Undo2, Undo3;
    ProductUndone(x);
  }

  lemma TimesInjective(a: bv64, b: bv64)
    ensures Times1(a) == Times1(b) || Times2(a) == Times2(b) || Times3(a) == Times3(b) ==> a == b
  {
    hide Times1, Times2, Times3, Undo1, Undo2, Undo3;
    TimesUndone(a);
    TimesUndone(b);
  }

  function Unshift33(h: bv64): bv64 {
    h ^ (h >> 33)
  }

  function Unshift29(h: bv64): bv64 {
    h ^ (h >> 29) ^ (h >> 58)
  }

  function Unshift32(h: bv64): bv64 {
    h ^ (h >> 32)
  }

  lemma XorShiftUndone(h: bv64)
    ensures Unshift33(h ^ (h >> 33)) == h && Unshift29(h ^ (h >> 29)) == h && Unshift32(h ^ (h >> 32)) == h
  {
  }

  lemma ShiftUndone(h: bv64)
    ensures Unshift33(Shift33(h)) == h && Unshift29(Shift29(h)) == h && Unshift32(Shift32(h)) == h
  {
    hide Unshift33, Unshift29, Unshift32;
    XorShiftUndone(h);
  }

  lemma ShiftInjective(a: bv64, b: bv64)
    ensures Shift33(a) == Shift33(b) || Shift29(a) == Shift29(b) || Shift32(a) == Shift32(b) ==> a == b
  {
    hide Shift33, Shift29, Shift32, Unshift33, Unshift29, Unshift32;
    ShiftUndone(a);
    ShiftUndone(b);
  }

  function Unrotate(h: bv64, n: nat): bv64
    requires n == 27 || n == 23 || n == 11
  {
    if n == 27 then h.RotateRight(27) else if n == 23 then h.RotateRight(23) else h.RotateRight(11)
  }

  lemma RotationUndone(h: bv64)
    ensures Unrotate(h.RotateLeft(27), 27) == h && Unrotate(h.RotateLeft(23), 23) == h
    ensures Unrotate(h.RotateLeft(11), 11) == h
  {
  }

  lemma RotateUndone(h: bv64)
    ensures Unrotate(Rotate27(h), 27) == h && Unrotate(Rotate23(h), 23) == h && Unrotate(Rotate11(h), 11) == h
  {
    hide Unrotate;
    RotationUndone(h);
  }

  lemma AvalancheInjective(a: bv64, b: bv64)
    ensures Avalanche(a) == Avalanche(b) ==> a == b
  {
    hide Times2, Times3, Shift29, Shift32, Shift33;
    ShiftInjective(Times3(Shift29(Times2(Shift33(a)))), Times3(Shift29(Times2(Shift33(b)))));
    TimesInjective(Shift29(Times2(Shift33(a))), Shift29(Times2(Shift33(b))));
    ShiftInjective(Times2(Shift33(a)), Times2(Shift33(b)));
    TimesInjective(Shift33(a), Shift33(b));
    ShiftInjective(a, b);
  }

  lemma MixInjective(a: bv64, b: bv64, x: bv64)
    ensures Mix(a, x) == Mix(b, x) ==> a == b
  {
  }

  function Minus(h: bv64, x: bv64): bv64 {
    h - x
  }

  lemma SumUndone(h: bv64, x: bv64)
    ensures Minus(h + x, x) == h
  {
  }

  lemma PlusUndone(h: bv64, x: bv64)
    ensures Minus(Plus(h, x), x) == h
  {
    hide Minus;
    SumUndone(h, x);
  }

  lemma PlusInjective(a: bv64, b: bv64, x: bv64)
    ensures Plus(a, x) == Plus(b, x) ==> a == b
  {
    hide Plus, Minus;
    PlusUndone(a, x);
    PlusUndone(b, x);
  }

  lemma RotateInjective(a: bv64, b: bv64)
    ensures Rotate27(a) == Rotate27(b) || Rotate23(a) == Rotate23(b) || Rotate11(a) == Rotate11(b) ==> a == b
  {
    hide Rotate27, Rotate23, Rotate11, Unrotate;
    RotateUndone(a);
    RotateUndone(b);
  }

  lemma Process8Injective(a: bv64, b: bv64, word: bv64)
    ensures Process8(a, word) == Process8(b, word) ==> a == b
  {
    hide Times1, Rotate27, Round, Mix, Plus;
    var x, y := Mix(a, Round(0, word)), Mix(b, Round(0, word));
    PlusInjective(Times1(Rotate27(x)), Times1(Rotate27(y)), PRIME_4);
    TimesInjective(Rotate27(x), Rotate27(y));
    RotateInjective(x, y);
    MixInjective(a, b, Round(0, word));
  }

  lemma Process4Injective(a: bv64, b: bv64, word: bv64)
    ensures Process4(a, word) == Process4(b, word) ==> a == b
  {
    hide Times1, Times2, Rotate23, Mix, Plus;
    var x, y := Mix(a, Times1(word)), Mix(b, Times1(word));
    PlusInjective(Times2(Rotate23(x)), Times2(Rotate23(y)), PRIME_3);
    TimesInjective(Rotate23(x), Rotate23(y));
    RotateInjective(x, y);
    MixInjective(a, b, Times1(word));
  }

  lemma Process1Injective(a: bv64, b: bv64, byte1: byte)
    ensures Process1(a, byte1) == Process1(b, byte1) ==> a == b
  {
    hide Times1, Rotate11, Mix, ByteWord;
    var x, y := Mix(a, ByteWord(byte1)), Mix(b, ByteWord(byte1));
    TimesInjective(Rotate11(x), Rotate11(y));
    RotateInjective(x, y);
    MixInjective(a, b, ByteWord(byte1));
  }

  lemma {:induction false} TailInjective(a: bv64, b: bv64, s: Bytes)
    ensures Tail(a, s) == Tail(b, s) ==> a == b
    decreases |s|
  {
    hide Process8, Process4, Process1, Word8, Word4;
    if |s| >= 8 {
      Process8Injective(a, b, Word8(s[..8]));
      TailInjective(Process8(a, Word8(s[..8])), Process8(b, Word8(s[..8])), s[8..]);
    } else if |s| >= 4 {
      Process4Injective(a, b, Word4(s[..4]));
      TailInjective(Process4(a, Word4(s[..4])), Process4(b, Word4(s[..4])), s[4..]);
    } else if |s| > 0 {
      Process1Injective(a, b, s[0]);
      TailInjective(Process1(a, s[0]), Process1(b, s[0]), s[1..]);
    }
  }

  /** Different states before the final mix give different hashes. */
  lemma ClosedInjective(a: bv64, b: bv64, s: Bytes)
    ensures Closed(a, s) == Closed(b, s) <==> a == b
  {
    hide Avalanche, Tail, Plus, Rest;
    var n := |s| % MODULUS;
    if Closed(a, s) == Closed(b, s) {
      AvalancheInjective(Tail(AddLength(a, n), Rest(32, s)), Tail(AddLength(b, n), Rest(32, s)));
      TailInjective(AddLength(a, n), AddLength(b, n), Rest(32, s));
      PlusInjective(a, b, n as bv64);
    }
  }

  /** `PROCESS8_64` at `p`. */
  method TakeWord8(h: bv64, s: Bytes, p: nat, end: nat) returns (h': bv64, p': nat)
    requires p + 8 <= end <= |s|
    ensures p' == p + 8 && TailAt(h', s, p', end) == TailAt(h, s, p, end)
  {
    hide Process8, Process4, Process1, Word8, Word4;
    h', p' := Process8(h, Word8(s[p..p + 8])), p + 8;
    SliceOfSlice(s, p, end, 0, 8);
    SubSlice(s, p, p + 8, end);
  }

  /** `PROCESS4_64` at `p`. */
  method TakeWord4(h: bv64, s: Bytes, p: nat, end: nat) returns (h': bv64, p': nat)
    requires p + 4 <= end <= |s| && end < p + 8
    ensures p' == p + 4 && TailAt(h', s, p', end) == TailAt(h, s, p, end)
  {
    hide Process8, Process4, Process1, Word8, Word4;
    h', p' := Process4(h, Word4(s[p..p + 4])), p + 4;
    SliceOfSlice(s, p, end, 0, 4);
    SubSlice(s, p, p + 4, end);
  }

  /** `PROCESS1_64` at `p`. */
  method TakeByte(h: bv64, s: Bytes, p: nat, end: nat) returns (h': bv64, p': nat)
    requires p < end <= |s| && end < p + 4
    ensures p' == p + 1 && TailAt(h', s, p', end) == TailAt(h, s, p, end)
  {
    hide Process8, Process4, Process1, Word8, Word4;
    h', p' := Process1(h, s[p]), p + 1;
    SubSlice(s, p, p + 1, end);
  }

  /** `XXH64_finalize`: the unrolled switch takes just the words and bytes there are. */
  method Finalize(h0: bv64, s: Bytes, len: nat) returns (h: bv64)
    requires len % 32 <= |s|
    ensures h == Avalanche(Tail(h0, s[..len % 32]))
  {
    hide TailAt, Tail, Avalanche;
    var c, p := len % 32, 0;
    h := h0;
    TailWhole(h, s, c);
    if c == 24 || c == 16 || c == 8 {
      if c == 24 { h, p := TakeWord8(h, s, p, c); }
      if c == 24 || c == 16 { h, p := TakeWord8(h, s, p, c); }
      h, p := TakeWord8(h, s, p, c);
    } else if c == 28 || c == 20 || c == 12 || c == 4 {
      if c == 28 { h, p := TakeWord8(h, s, p, c); }
      if c == 28 || c == 20 { h, p := TakeWord8(h, s, p, c); }
      if c == 28 || c == 20 || c == 12 { h, p := TakeWord8(h, s, p, c); }
      h, p := TakeWord4(h, s, p, c);
    } else if c == 25 || c == 17 || c == 9 {
      if c == 25 { h, p := TakeWord8(h, s, p, c); }
      if c == 25 || c == 17 { h, p := TakeWord8(h, s, p, c); }
      h, p := TakeWord8(h, s, p, c);
      h, p := TakeByte(h, s, p, c);
    } else if c == 29 || c == 21 || c == 13 || c == 5 {
      if c == 29 { h, p := TakeWord8(h, s, p, c); }
      if c == 29 || c == 21 { h, p := TakeWord8(h, s, p, c); }
      if c == 29 || c == 21 || c == 13 { h, p := TakeWord8(h, s, p, c); }
      h, p := TakeWord4(h, s, p, c);
      h, p := TakeByte(h, s, p, c);
    } else if c == 26 || c == 18 || c == 10 {
      if c == 26 { h, p := TakeWord8(h, s, p, c); }
      if c == 26 || c == 18 { h, p := TakeWord8(h, s, p, c); }
      h, p := TakeWord8(h, s, p, c);
      h, p := TakeByte(h, s, p, c);
      h, p := TakeByte(h, s, p, c);
    } else if c == 30 || c == 22 || c == 14 || c == 6 {
      if c == 30 { h, p := TakeWord8(h, s, p, c); }
      if c == 30 || c == 22 { h, p := TakeWord8(h, s, p, c); }
      if c == 30 || c == 22 || c == 14 { h, p := TakeWord8(h, s, p, c); }
      h, p := TakeWord4(h, s, p, c);
      h, p := TakeByte(h, s, p, c);
      h, p := TakeByte(h, s, p, c);
    } else if c == 27 || c == 19 || c == 11 {
      if c == 27 { h, p := TakeWord8(h, s, p, c); }
      if c == 27 || c == 19 { h, p := TakeWord8(h, s, p, c); }
      h, p := TakeWord8(h, s, p, c);
      h, p := TakeByte(h, s, p, c);
      h, p := TakeByte(h, s, p, c);
      h, p := TakeByte(h, s, p, c);
    } else {
      if c == 31 { h, p := TakeWord8(h, s, p, c); }
      if c == 31 || c == 23 { h, p := TakeWord8(h, s, p, c); }
      if c == 31 || c == 23 || c == 15 { h, p := TakeWord8(h, s, p, c); }
      if c >= 7 { h, p := TakeWord4(h, s, p, c); }
      if c >= 3 { h, p := TakeByte(h, s, p, c); }
      if c >= 2 { h, p := TakeByte(h, s, p, c); }
      if c >= 1 { h, p := TakeByte(h, s, p, c); }
    }
    TailDone(h, s, c);
    h := Avalanche(h);
  }

  /** The loop of both forms: every whole stripe from `start` on. */
  method TakeStripes(v0: Lanes<bv64>, input: Bytes, start: nat) returns (v: Lanes<bv64>, p: nat)
    requires start <= |input|
    ensures start <= p <= |input| < p + 32 && (p - start) % 32 == 0
    ensures v == Fold(Stripe, 32, v0, input[start..p])
  {
    hide Stripe, Fold;
    v, p := v0, start;
    FoldNothing(Stripe, 32, v0, input, start);
    while p + 32 <= |input|
      invariant start <= p <= |input| && (p - start) % 32 == 0 && v == Fold(Stripe, 32, v0, input[start..p])
    {
      FoldStripe(Stripe, 32, v0, input[start..p], input[p..p + 32]);
      SliceJoin(input, start, p, p + 32);
      v := Stripe(v, input[p..p + 32]);
      p := p + 32;
    }
  }

  /** `XXH64_endian_align`. */
  method OneShot(input: Bytes, seed: bv64) returns (h: bv64)
    ensures h == Hash(input, seed)
  {
    hide Converge, Tail, Avalanche, Stripe, Start, AddLength, Fold, Rest;
    var p := 0;
    if |input| >= 32 {
      var v;
      v, p := TakeStripes(Start(seed), input, 0);
      h := Converge(v);
    } else {
      h := Plus(seed, PRIME_5);
    }
    FoldAll(Stripe, 32, Start(seed), input, p);
    h := AddLength(h, |input| % MODULUS);
    assert input[p..][..|input| - p] == input[p..];
    h := Finalize(h, input[p..], |input|);
  }

  /** The length, modulo 2^64, is less than a stripe although the input is not. */
  predicate Wrapped(all: Bytes) {
    |all| >= MODULUS && |all| % MODULUS < 32
  }

  /** The lanes happen to converge to what is used in their place for a short input. */
  predicate ConvergeAlike(all: Bytes, seed: bv64) {
    Converge(Fold(Stripe, 32, Start(seed), all)) == Plus(Fold(Stripe, 32, Start(seed), all).v3, PRIME_5)
  }

  // ---------------------------------------------------------------- inputs whose digest is not their hash

  function BytesOf(n: nat, k: nat): (s: Bytes)
    ensures |s| == k
  {
    if k == 0 then [] else [n % 256] + BytesOf(n / 256, k - 1)
  }

  function Power(k: nat): (p: nat)
    ensures p > 0
  {
    if k == 0 then 1 else 256 * Power(k - 1)
  }

  lemma {:induction false} LittleOf(n: nat, k: nat)
    requires n < Power(k)
    ensures Little(BytesOf(n, k)) == n
  {
    if k > 0 {
      LittleOf(n / 256, k - 1);
      assert BytesOf(n, k)[1..] == BytesOf(n / 256, k - 1);
    }
  }

  lemma PowerOf8()
    ensures Power(8) == MODULUS
  {
    assert Power(4) == 0x1_0000_0000;
  }

  lemma WordBound(w: bv64)
    ensures (w as nat) < MODULUS
  {
  }

  lemma WordBack(w: bv64)
    ensures (w as nat) as bv64 == w
  {
  }

  lemma ModBack(n: nat)
    requires n < MODULUS
    ensures n % MODULUS == n
  {
  }

  /** The bytes of a word. */
  function Bytes8(w: bv64): (s: Bytes)
    ensures |s| == 8
  {
    BytesOf(w as nat, 8)
  }

  lemma WordRead(s: Bytes, n: nat, w: bv64)
    requires Little(s) == n < MODULUS && n as bv64 == w
    ensures Word8(s) == w
  {
    ModBack(n);
  }

  /** Every word can be fed. */
  lemma WordOf(w: bv64)
    ensures Word8(Bytes8(w)) == w
  {
    hide BytesOf, Word8;
    WordBound(w);
    WordBack(w);
    WordOfNumber(w as nat, w);
  }

  lemma WordOfNumber(n: nat, w: bv64)
    requires n < MODULUS && n as bv64 == w
    ensures Word8(BytesOf(n, 8)) == w
  {
    hide Little, BytesOf, Power, Word8;
    PowerOf8();
    LittleOf(n, 8);
    WordRead(BytesOf(n, 8), n, w);
  }

  lemma QuotientUndone(y: bv64)
    ensures Times2(y * 839798700976720815) == y
  {
  }

  lemma TimesNothing()
    ensures Times1(0) == 0
  {
  }

  /** The word that takes a lane to zero. */
  function Zeroing(acc: bv64): bv64 {
    Undo2(0 - acc)
  }

  lemma TimesBack(y: bv64)
    ensures Times2(Undo2(y)) == y
  {
    hide Times2;
    QuotientUndone(y);
  }

  lemma LaneZero(acc: bv64)
    ensures Round(acc, Zeroing(acc)) == 0
  {
    hide Times1, Times2, Undo2;
    TimesBack(0 - acc);
    assert acc + (0 - acc) == 0;
    TimesNothing();
  }

  lemma ZeroingWord(acc: bv64)
    ensures Round(acc, Word8(Bytes8(Zeroing(acc)))) == 0
  {
    hide Round, Word8, Bytes8, Zeroing;
    WordOf(Zeroing(acc));
    LaneZero(acc);
  }

  lemma FourWords(v: Lanes<bv64>, b1: Bytes, b2: Bytes, b3: Bytes, b4: Bytes)
    requires |b1| == |b2| == |b3| == |b4| == 8
    ensures |b1 + b2 + b3 + b4| == 32
    ensures Stripe(v, b1 + b2 + b3 + b4)
      == Lanes(Round(v.v1, Word8(b1)), Round(v.v2, Word8(b2)), Round(v.v3, Word8(b3)), Round(v.v4, Word8(b4)))
  {
    hide Round, Word8;
    var s := b1 + b2 + b3 + b4;
    assert s[..8] == b1 && s[8..16] == b2 && s[16..24] == b3 && s[24..32] == b4;
  }

  /** The stripe that takes all lanes to zero. */
  function ZeroingStripe(v: Lanes<bv64>): Bytes {
    Bytes8(Zeroing(v.v1)) + Bytes8(Zeroing(v.v2)) + Bytes8(Zeroing(v.v3)) + Bytes8(Zeroing(v.v4))
  }

  lemma AllZero(v: Lanes<bv64>)
    ensures |ZeroingStripe(v)| == 32 && Stripe(v, ZeroingStripe(v)) == Lanes(0, 0, 0, 0)
  {
    hide Round, Word8, Bytes8, Zeroing, Stripe;
    ZeroingWord(v.v1);
    ZeroingWord(v.v2);
    ZeroingWord(v.v3);
    ZeroingWord(v.v4);
    FourWords(v, Bytes8(Zeroing(v.v1)), Bytes8(Zeroing(v.v2)), Bytes8(Zeroing(v.v3)), Bytes8(Zeroing(v.v4)));
  }

  lemma ZeroLanes()
    ensures Converge(Lanes(0, 0, 0, 0)) != Plus(0, PRIME_5)
  {
  }

  /** For every seed and every start of 2^64 - 32 bytes there is a last stripe with which the digest of the whole, once
      its length has wrapped around, is not its hash. */
  lemma DigestDiffers(front: Bytes, seed: bv64) returns (all: Bytes)
    requires |front| == MODULUS - 32
    ensures |all| == MODULUS && all[..|front|] == front && Wrapped(all) && !ConvergeAlike(all, seed)
  {
    hide Stripe, Start, Converge, Plus, ZeroingStripe;
    var lanes := Fold(Stripe, 32, Start(seed), front);
    all := front + ZeroingStripe(lanes);
    AllZero(lanes);
    FoldStripe(Stripe, 32, Start(seed), front, ZeroingStripe(lanes));
    ZeroLanes();
  }

  /** The streaming state, `XXH64_state_t`. */
  class State {
    var total: nat
    var v: Lanes<bv64>
    const mem: array<byte>
    var memsize: nat
    /** The seed, and all input since the state was reset. */
    ghost var seed: bv64
    ghost var all: Bytes

    /** The lanes have taken all whole stripes; the rest is in `mem`. */
    ghost predicate Gathered()
      reads `v, `memsize, `seed, `all, mem
    {
      && mem.Length == 32 && memsize == |all| % 32 && mem[..memsize] == Rest(32, all)
      && v == Fold(Stripe, 32, Start(seed), all)
    }

    /** The length is known modulo 2^64. */
    ghost predicate Counted()
      reads `total, `all
    {
      total == |all| % MODULUS
    }

    ghost predicate Valid()
      reads this, mem
    {
      Gathered() && Counted()
    }

    /** `XXH64_createState` and `XXH64_reset`. */
    constructor (seed: bv64)
      ensures Valid() && fresh(mem) && this.seed == seed && all == []
    {
      total, memsize, all := 0, 0, [];
      v := Start(seed);
      mem := new byte[32];
      this.seed := seed;
    }

    lemma Fresh()
      requires mem.Length == 32 && memsize == 0 && all == [] && v == Start(seed) && total == 0
      ensures Valid()
    {
      hide Stripe, Start;
      assert mem[..0] == Rest(32, []);
    }

    method Reset(seed: bv64)
      requires mem.Length == 32
      modifies this
      ensures Valid() && this.seed == seed && all == []
    {
      hide Fold, Stripe, Start, Rest;
      total, memsize, all := 0, 0, [];
      v := Start(seed);
      this.seed := seed;
      Fresh();
    }

    /** `memcpy` into the buffer. */
    method Store(at: nat, bytes: Bytes)
      requires at + |bytes| <= mem.Length
      modifies mem
      ensures mem[..at + |bytes|] == old(mem[..at]) + bytes
    {
      var i := 0;
      while i < |bytes|
        invariant i <= |bytes| && mem[..at + i] == old(mem[..at]) + bytes[..i]
      {
        mem[at + i] := bytes[i];
        i := i + 1;
      }
    }

    method Count(len: nat, ghost input: Bytes)
      requires Counted() && len == |input|
      modifies `total
      ensures total == |all + input| % MODULUS
    {
      ModOfCount(|all|, len, MODULUS);
      total := (total + len) % MODULUS;
    }

    /** `XXH64_update`. */
    method Update(input: Bytes)
      requires Valid()
      modifies this, mem
      ensures Valid() && all == old(all) + input && seed == old(seed)
    {
      hide Gathered;
      Count(|input|, input);
      BufferSize();
      if memsize + |input| < 32 { Keep(input); } else { Absorb(input); }
      all := all + input;
      NowGathered();
    }

    lemma NowGathered()
      requires mem.Length == 32 && memsize == |all| % 32 && mem[..memsize] == Rest(32, all)
      requires v == Fold(Stripe, 32, Start(seed), all)
      ensures Gathered()
    {
    }

    lemma BufferSize()
      requires Gathered()
      ensures mem.Length == 32 && memsize < 32
    {
    }

    /** The lanes and the buffer hold `whole` and `rest`. */
    ghost predicate Holds(whole: Bytes, rest: Bytes)
      reads `v, `memsize, `seed, mem
    {
      && mem.Length == 32 && |whole| % 32 == 0 && |rest| < 32 && memsize == |rest| && mem[..memsize] == rest
      && v == Fold(Stripe, 32, Start(seed), whole)
    }

    lemma Split() returns (whole: Bytes, rest: Bytes)
      requires Gathered()
      ensures Holds(whole, rest) && all == whole + rest
    {
      whole := Whole(Stripe, 32, Start(seed), all);
      rest := Rest(32, all);
    }

    lemma Joined(whole: Bytes, rest: Bytes, now: Bytes)
      requires Holds(whole, rest) && now == whole + rest
      ensures memsize == |now| % 32 && mem[..memsize] == Rest(32, now) && v == Fold(Stripe, 32, Start(seed), now)
    {
      FoldShort(Stripe, 32, Start(seed), whole, rest);
    }

    /** All of the input fits in the buffer. */
    method Keep(input: Bytes)
      requires Gathered() && memsize + |input| < 32
      modifies `memsize, mem
      ensures memsize == |all + input| % 32 && mem[..memsize] == Rest(32, all + input)
      ensures mem.Length == 32 && v == Fold(Stripe, 32, Start(seed), all + input)
    {
      hide Gathered, Fold, Rest, Stripe, Start;
      ghost var whole, rest := Split();
      Store(memsize, input);
      memsize := memsize + |input|;
      assert all + input == whole + (rest + input);
      Joined(whole, rest + input, all + input);
    }

    /** The buffer is completed by the beginning of the input, and taken. */
    method CompleteStripe(input: Bytes, ghost whole: Bytes, ghost rest: Bytes) returns (p: nat)
      requires Holds(whole, rest) && memsize + |input| >= 32
      modifies `v, `memsize, mem
      ensures p <= |input| && Holds(whole + rest + input[..p], []) && memsize == 0
    {
      hide Fold, Stripe, Start;
      p := 0;
      if memsize == 0 {
        assert whole + rest + input[..0] == whole && mem[..0] == [];
      } else {
        p := 32 - memsize;
        Store(memsize, input[..p]);
        FoldStripe(Stripe, 32, Start(seed), whole, rest + input[..p]);
        assert mem[..] == mem[..32] == rest + input[..p];
        v := Stripe(v, mem[..]);
        assert whole + (rest + input[..p]) == whole + rest + input[..p];
        memsize := 0;
        assert mem[..0] == [];
      }
    }

    /** All whole stripes are taken; the buffer keeps what remains. */
    method Absorb(input: Bytes)
      requires Gathered() && memsize + |input| >= 32
      modifies `v, `memsize, mem
      ensures memsize == |all + input| % 32 && mem[..memsize] == Rest(32, all + input)
      ensures mem.Length == 32 && v == Fold(Stripe, 32, Start(seed), all + input)
    {
      hide Gathered, Fold, Rest, Stripe, Start;
      ghost var whole, rest := Split();
      var p := CompleteStripe(input, whole, rest);
      ghost var taken := all + input[..p];
      var q;
      v, q := TakeStripes(v, input, p);
      FoldJoin(Stripe, 32, Start(seed), taken, input[p..q]);
      ModOfSum(|taken|, q - p, 32);
      StripesTaken(all, input, p, q);
      if q < |input| {
        Store(0, input[q..]);
        memsize := |input| - q;
      }
      Joined(taken + input[p..q], input[q..], all + input);
    }

    /** `XXH64_digest`: the one-shot hash of all input since the reset, however it was split, as long as the length has
        not wrapped around to less than a stripe. If it has, the lanes are left out of account as for a short input, and
        the result is still right just if they happen to converge to what is used instead. The state is not changed. */
    method Digest() returns (h: bv64)
      requires Valid()
      ensures h == Hash(all, seed) <==> !Wrapped(all) || ConvergeAlike(all, seed)
      ensures Wrapped(all) ==> h == Closed(Plus(Fold(Stripe, 32, Start(seed), all).v3, PRIME_5), all)
    {
      hide Converge, Avalanche, Stripe, Start, Rest, Tail, Fold, AddLength, Plus;
      if |all| < 32 { NoStripe(Stripe, 32, Start(seed), all); }
      ClosedInjective(Converge(v), Plus(v.v3, PRIME_5), all);
      if total >= 32 {
        h := Converge(v);
      } else {
        StartSeed(seed);
        h := Plus(v.v3, PRIME_5);
      }
      h := AddLength(h, total);
      assert mem[..][..memsize] == mem[..memsize];
      assert total % 32 == memsize;
      h := Finalize(h, mem[..], total);
    }
  }

  /** Whatever pieces the input comes in, the streaming hash is the one-shot hash of the whole, unless the length has
      wrapped around, the lanes count for nothing and they converge to something else. */
  method HashInPieces(pieces: seq<Bytes>, seed: bv64) returns (h: bv64)
    ensures var all := Concat(pieces);
      && (h == Hash(all, seed) <==> !Wrapped(all) || ConvergeAlike(all, seed))
      && (Wrapped(all) ==> h == Closed(Plus(Fold(Stripe, 32, Start(seed), all).v3, PRIME_5), all))
  {
    hide Hash, Wrapped, ConvergeAlike, Closed, Plus, Fold, Start;
    var state := new State(seed);
    var i := 0;
    while i < |pieces|
      invariant i <= |pieces| && fresh(state) && fresh(state.mem)
      invariant state.Valid() && state.seed == seed && state.all == Concat(pieces[..i])
    {
      state.Update(pieces[i]);
      assert pieces[..i + 1][..i] == pieces[..i];
      i := i + 1;
    }
    assert pieces[..i] == pieces;
    h := state.Digest();
  }
}
