/** `LZ4_count`: how long two positions of the same data agree. */
module MatchCount {
  import opened Lz4Format

  /** The data at `a` and the data `a - b` before it agree for `n` bytes. */
  ghost predicate Agree(v: Bytes, a: nat, b: nat, n: nat) {
    && b <= a && a + n <= |v|
    && forall i {:trigger v[i]} :: a <= i < a + n ==> v[i] == v[i - (a - b)]
  }

  /** `n` is the length of the longest common prefix of the data at `a` and at `b`, cut at `limit`. */
  ghost predicate CommonLength(v: Bytes, a: nat, b: nat, limit: nat, n: nat) {
    && Agree(v, a, b, n) && a + n <= limit <= |v|
    && (a + n < limit ==> v[a + n] != v[b + n])
  }

  lemma AgreeAt(v: Bytes, a: nat, b: nat, n: nat, k: nat)
    requires Agree(v, a, b, n) && k < n
    ensures a + k < |v| && v[a + k] == v[b + k]
  {
    assert v[a + k] == v[a + k - (a - b)];
  }

  lemma AgreeNone(v: Bytes, a: nat, b: nat)
    requires b <= a <= |v|
    ensures Agree(v, a, b, 0)
  {
  }

  lemma AgreeJoin(v: Bytes, a: nat, b: nat, n: nat, k: nat)
    requires Agree(v, a, b, n) && Agree(v, a + n, b + n, k)
    ensures Agree(v, a, b, n + k)
  {
  }

  lemma AgreeShorter(v: Bytes, a: nat, b: nat, n: nat, k: nat)
    requires Agree(v, a, b, n) && k <= n
    ensures Agree(v, a, b, k)
  {
  }

  function Word(v: Bytes, p: nat, size: nat): (w: Bytes)
    requires p + size <= |v|
    ensures |w| == size
  {
    v[p..p + size]
  }

  /** The first differing byte of two words that differ (`LZ4_NbCommonBytes`, little endian). */
  function NbCommonBytes(x: Bytes, y: Bytes): (n: nat)
    requires |x| == |y| && x != y
    ensures n < |x| && x[n] != y[n] && forall i :: 0 <= i < n ==> x[i] == y[i]
  {
    if x[0] != y[0] then 0
    else
      assert x == [x[0]] + x[1..] && y == [y[0]] + y[1..];
      1 + NbCommonBytes(x[1..], y[1..])
  }

  /** Equal words extend an agreement. */
  lemma AgreeWord(v: Bytes, a: nat, b: nat, n: nat, size: nat)
    requires Agree(v, a, b, n) && a + n + size <= |v| && Word(v, a + n, size) == Word(v, b + n, size)
    ensures Agree(v, a, b, n + size)
  {
    forall i | a + n <= i < a + n + size
      ensures v[i] == v[i - (a - b)]
    {
      assert Word(v, a + n, size)[i - a - n] == Word(v, b + n, size)[i - a - n];
    }
  }

  lemma DifferingWord(v: Bytes, a: nat, b: nat, n: nat, size: nat) returns (k: nat)
    requires Agree(v, a, b, n) && a + n + size <= |v| && Word(v, a + n, size) != Word(v, b + n, size)
    ensures k < size && v[a + n + k] != v[b + n + k] && Agree(v, a, b, n + k)
    ensures k == NbCommonBytes(Word(v, a + n, size), Word(v, b + n, size))
  {
    hide NbCommonBytes, Word;
    var x, y := Word(v, a + n, size), Word(v, b + n, size);
    k := NbCommonBytes(x, y);
    WordAt(v, a + n, size, k);
    WordAt(v, b + n, size, k);
    forall i | a + n <= i < a + n + k
      ensures v[i] == v[i - (a - b)]
    {
      WordAt(v, a + n, size, i - a - n);
      WordAt(v, b + n, size, i - a - n);
    }
  }

  lemma WordAt(v: Bytes, p: nat, size: nat, i: nat)
    requires p + size <= |v| && i < size
    ensures Word(v, p, size)[i] == v[p + i]
  {
  }

  method Count(v: Bytes, pIn0: nat, pMatch0: nat, pInLimit: nat) returns (n: nat)
    requires pMatch0 <= pIn0 <= pInLimit <= |v|
    ensures CommonLength(v, pIn0, pMatch0, pInLimit, n)
  {
    hide Word, Agree;
    var pIn, pMatch := pIn0, pMatch0;
    AgreeNone(v, pIn0, pMatch0);
    while pIn < pInLimit - 7
      invariant pIn0 <= pIn <= pInLimit && pIn - pIn0 == pMatch - pMatch0
      invariant Agree(v, pIn0, pMatch0, pIn - pIn0)
    {
      var x, y := Word(v, pIn, 8), Word(v, pMatch, 8);
      if x != y {
        ghost var k := DifferingWord(v, pIn0, pMatch0, pIn - pIn0, 8);
        return pIn + NbCommonBytes(x, y) - pIn0;
      }
      AgreeWord(v, pIn0, pMatch0, pIn - pIn0, 8);
      pIn, pMatch := pIn + 8, pMatch + 8;
    }
    ghost var stop;
    n, stop := CountStep(v, pIn0, pMatch0, pInLimit, pIn - pIn0, 4, pInLimit - pIn0);
    n, stop := CountStep(v, pIn0, pMatch0, pInLimit, n, 2, stop);
    n, stop := CountStep(v, pIn0, pMatch0, pInLimit, n, 1, stop);
  }

  /** The agreement cannot exceed `stop`: the data differs there, or the limit is reached. */
  ghost predicate StopsAt(v: Bytes, a: nat, b: nat, limit: nat, stop: nat) {
    b <= a && a + stop <= limit <= |v| && (a + stop < limit ==> v[a + stop] != v[b + stop])
  }

  /** One step of `size` bytes: what may still agree after it is shorter than `size`. */
  method CountStep(v: Bytes, a: nat, b: nat, limit: nat, n0: nat, size: nat, ghost stop0: nat)
    returns (n: nat, ghost stop: nat)
    requires Agree(v, a, b, n0) && StopsAt(v, a, b, limit, stop0) && n0 <= stop0 < n0 + 2 * size
    ensures Agree(v, a, b, n) && StopsAt(v, a, b, limit, stop) && n <= stop < n + size
  {
    hide Word, Agree;
    n, stop := n0, stop0;
    if a + n0 + size <= limit {
      if Word(v, b + n0, size) == Word(v, a + n0, size) {
        AgreeWord(v, a, b, n0, size);
        n := n0 + size;
        if stop < n { AgreeAt(v, a, b, n, stop); }
      } else {
        ghost var k := DifferingWord(v, a, b, n0, size);
        stop := n0 + k;
      }
    }
  }
}
