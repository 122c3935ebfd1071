/**
  The match search of the high-compression levels: hash table and chain table, backward extension, better
  chains, and the analysis of runs of one byte.

  `v` is the external dictionary segment, which may be empty, followed by the prefix up to the end of the input.
  Index `lowLimit` is its first byte and `dictLimit` the first byte of the prefix. Both tables only propose
  candidates; whatever they hold, a match that is returned is a match.
*/
module HcSearch {
  import opened Lz4Format
  import opened MatchCount

  /** A match of `len` bytes for position `start`, no further back than the format allows. */
  ghost predicate IsMatch(v: Bytes, start: nat, ref: nat, len: nat) {
    ref < start && start - ref <= DISTANCE_MAX && start + len <= |v| && Agree(v, start, ref, len)
  }

  /** The bytes from `p` on repeat the four bytes of `pattern` for `n` bytes. */
  ghost predicate Repeats(v: Bytes, p: nat, n: nat, pattern: Bytes) {
    |pattern| == 4 && p + n <= |v| && forall i {:trigger v[i]} :: p <= i < p + n ==> v[i] == pattern[(i - p) % 4]
  }

  /** The bytes before `p` repeat the pattern backwards for `n` bytes. */
  ghost predicate RepeatsBack(v: Bytes, p: nat, n: nat, pattern: Bytes) {
    |pattern| == 4 && n <= p <= |v|
    && forall i {:trigger v[i]} :: p - n <= i < p ==> v[i] == pattern[3 - (p - 1 - i) % 4]
  }

  predicate Uniform(pattern: Bytes) {
    |pattern| == 4 && pattern[0] == pattern[1] == pattern[2] == pattern[3]
  }

  lemma RepeatsLonger(v: Bytes, p: nat, n: nat, k: nat, pattern: Bytes)
    requires Repeats(v, p, n, pattern) && n % 4 == 0 && k <= 8 && p + n + k <= |v|
    requires forall i :: 0 <= i < k ==> v[p + n + i] == (pattern + pattern)[i]
    ensures Repeats(v, p, n + k, pattern)
  {
    forall i | p + n <= i < p + n + k
      ensures v[i] == pattern[(i - p) % 4]
    {
      var o := i - p - n;
      assert v[p + n + o] == (pattern + pattern)[o];
      assert (i - p) % 4 == o % 4;
    }
  }

  /** `LZ4HC_countPattern`: how many bytes from `start` on repeat the pattern, eight at a time. */
  method CountPattern(v: Bytes, start: nat, end: nat, pattern: Bytes) returns (n: nat)
    requires |pattern| == 4 && start <= end <= |v|
    ensures Repeats(v, start, n, pattern) && start + n <= end
  {
    hide Repeats, NbCommonBytes, Word;
    var p := start;
    var word := pattern + pattern;
    RepeatsNone(v, start, pattern);
    while p < end - 7
      invariant start <= p <= end && (p - start) % 8 == 0 && Repeats(v, start, p - start, pattern)
    {
      var w := Word(v, p, 8);
      if w != word {
        WordRepeats(v, start, p - start, NbCommonBytes(w, word), pattern);
        return p + NbCommonBytes(w, word) - start;
      }
      WordRepeats(v, start, p - start, 8, pattern);
      p := p + 8;
    }
    n := CountPatternTail(v, start, end, p, pattern);
  }

  lemma RepeatsNone(v: Bytes, p: nat, pattern: Bytes)
    requires |pattern| == 4 && p <= |v|
    ensures Repeats(v, p, 0, pattern) && RepeatsBack(v, p, 0, pattern)
  {
  }

  /** As many bytes of the next word as agree with the pattern prolong the repetition. */
  lemma WordRepeats(v: Bytes, p: nat, n: nat, k: nat, pattern: Bytes)
    requires Repeats(v, p, n, pattern) && n % 4 == 0 && k <= 8 && p + n + 8 <= |v|
    requires var w := Word(v, p + n, 8);
      if w == pattern + pattern then k == 8 else |w| == |pattern + pattern| && k == NbCommonBytes(w, pattern + pattern)
    ensures Repeats(v, p, n + k, pattern)
  {
    var w := Word(v, p + n, 8);
    forall i | 0 <= i < k
      ensures v[p + n + i] == (pattern + pattern)[i]
    {
      assert v[p + n + i] == w[i];
    }
    RepeatsLonger(v, p, n, k, pattern);
  }

  lemma RepeatsOnce(v: Bytes, start: nat, n: nat, k: nat, pattern: Bytes)
    requires Repeats(v, start, n, pattern) && k < 8 && n % 4 == k % 4 && start + n < |v|
    requires v[start + n] == (pattern + pattern)[k]
    ensures Repeats(v, start, n + 1, pattern)
  {
    assert (pattern + pattern)[k] == pattern[k % 4];
  }

  method CountPatternTail(v: Bytes, start: nat, end: nat, p0: nat, pattern: Bytes) returns (n: nat)
    requires |pattern| == 4 && start <= p0 <= end <= |v| && end < p0 + 8 && (p0 - start) % 8 == 0
    requires Repeats(v, start, p0 - start, pattern)
    ensures Repeats(v, start, n, pattern) && start + n <= end
  {
    hide Repeats;
    var p, k := p0, 0;
    while p < end && v[p] == (pattern + pattern)[k]
      invariant p == p0 + k && p <= end
      invariant Repeats(v, start, p - start, pattern)
    {
      assert (p - start) % 4 == k % 4;
      RepeatsOnce(v, start, p - start, k, pattern);
      p, k := p + 1, k + 1;
    }
    n := p - start;
  }

  /** `LZ4HC_reverseCountPattern`: how many bytes before `start` repeat the pattern, four at a time. */
  method ReverseCountPattern(v: Bytes, start: nat, low: nat, pattern: Bytes) returns (n: nat)
    requires |pattern| == 4 && low <= start <= |v|
    ensures RepeatsBack(v, start, n, pattern) && low + n <= start
  {
    hide RepeatsBack, Word;
    var p := start;
    RepeatsNone(v, start, pattern);
    while p >= low + 4 && Word(v, p - 4, 4) == pattern
      invariant low <= p <= start && (start - p) % 4 == 0 && RepeatsBack(v, start, start - p, pattern)
    {
      BackWord(v, start, start - p, pattern);
      p := p - 4;
    }
    n := ReverseCountTail(v, start, low, p, pattern);
  }

  /** The last bytes, one at a time: fewer than four of them can agree, so the pattern is not overrun. */
  method ReverseCountTail(v: Bytes, start: nat, low: nat, p0: nat, pattern: Bytes) returns (n: nat)
    requires |pattern| == 4 && low <= p0 <= start <= |v| && (start - p0) % 4 == 0
    requires RepeatsBack(v, start, start - p0, pattern)
    requires p0 >= low + 4 ==> Word(v, p0 - 4, 4) != pattern
    ensures RepeatsBack(v, start, n, pattern) && low + n <= start
  {
    var p, k := p0, 3;
    ghost var stop := if p0 >= low + 4 then NbCommonBytes(Word(v, p0 - 4, 4), pattern) else 0;
    while p > low && v[p - 1] == pattern[k]
      invariant low <= p <= p0 && p0 - p == 3 - k
      invariant p0 >= low + 4 ==> k >= stop && v[p0 - 4 + stop] != pattern[stop]
      invariant RepeatsBack(v, start, start - p, pattern)
    {
      assert (start - 1 - (p - 1)) % 4 == 3 - k;
      p, k := p - 1, k - 1;
    }
    n := start - p;
  }

  lemma BackWord(v: Bytes, p: nat, n: nat, pattern: Bytes)
    requires RepeatsBack(v, p, n, pattern) && n % 4 == 0 && n + 4 <= p && Word(v, p - n - 4, 4) == pattern
    ensures RepeatsBack(v, p, n + 4, pattern)
  {
    forall i | p - n - 4 <= i < p - n
      ensures v[i] == pattern[3 - (p - 1 - i) % 4]
    {
      var o := i - (p - n - 4);
      assert v[i] == Word(v, p - n - 4, 4)[o];
      assert (p - 1 - i) % 4 == 3 - o;
    }
  }

  // ---------------------------------------------------------------- the search

  /** What a search looks for: wider than `longest0`, between the limits, and covering the position `ip`. The first
      `dict` bytes of `v` are the external dictionary. */
  datatype Query = Query(v: Bytes, dict: nat, ip: nat, iLow: nat, iHigh: nat, longest0: nat) {
    ghost predicate Valid() {
      && dict <= ip && iLow <= ip && ip + MINMATCH <= iHigh < |v|
      && ip - iLow < longest0 && iLow + longest0 <= iHigh
    }

    /** What has been found so far is either no wider than asked, or such a match. */
    ghost predicate Answer(longest: nat, ref: nat, start: nat) {
      longest >= longest0 && iLow + longest <= iHigh &&
      (longest > longest0 ==>
        && IsMatch(v, start, ref, longest)
        && iLow <= start <= ip && ip + MINMATCH <= start + longest <= iHigh)
    }
  }

  /** A hash of the four bytes at a position. */
  function HashAt(v: Bytes, p: nat, hash: Bytes -> nat, size: nat): (h: nat)
    requires p + 4 <= |v| && size > 0
    ensures h < size
  {
    hash(v[p..p + 4]) % size
  }

  class Context {
    const hashTable: array<nat>
    const chainTable: array<nat>
    var lowLimit: nat
    var dictLimit: nat
    var nextToUpdate: nat

    /** Indexed positions are below `nextToUpdate`; chain links are 16-bit. */
    ghost predicate Valid()
      reads this, hashTable, chainTable
    {
      && hashTable != chainTable
      && hashTable.Length > 0 && chainTable.Length == 0x1_0000
      && KB64 <= lowLimit <= dictLimit <= nextToUpdate
      && (forall h :: 0 <= h < hashTable.Length ==> hashTable[h] < nextToUpdate)
      && (forall i :: 0 <= i < chainTable.Length ==> chainTable[i] <= DISTANCE_MAX)
    }

    /** `LZ4HC_clearTables` and `LZ4HC_init_internal` on a fresh context. */
    constructor (hashSize: nat)
      requires hashSize > 0
      ensures Valid() && nextToUpdate == dictLimit == lowLimit == KB64 && fresh(hashTable) && fresh(chainTable)
    {
      hashTable := new nat[hashSize](_ => 0);
      chainTable := new nat[0x1_0000](_ => 0xFFFF);
      lowLimit, dictLimit, nextToUpdate := KB64, KB64, KB64;
    }

    /** `LZ4HC_clearTables`. */
    method ClearTables()
      requires hashTable != chainTable
      modifies hashTable, chainTable
      ensures (forall h :: 0 <= h < hashTable.Length ==> hashTable[h] == 0)
      ensures (forall i :: 0 <= i < chainTable.Length ==> chainTable[i] == 0xFFFF)
    {
      forall h | 0 <= h < hashTable.Length { hashTable[h] := 0; }
      forall i | 0 <= i < chainTable.Length { chainTable[i] := 0xFFFF; }
    }

    /** How much of `v` is the external dictionary. */
    function DictSize(): int
      reads `lowLimit, `dictLimit
    {
      dictLimit - lowLimit
    }

    /** `LZ4HC_Insert`: index all positions before `ip`. */
    method Insert(v: Bytes, ip: nat, hash: Bytes -> nat)
      requires Valid() && nextToUpdate <= ip + lowLimit && ip + 3 <= |v|
      modifies `nextToUpdate, hashTable, chainTable
      ensures Valid() && nextToUpdate == ip + lowLimit
    {
      var target := ip + lowLimit;
      var idx := nextToUpdate;
      while idx < target
        modifies hashTable, chainTable
        invariant nextToUpdate <= idx <= target
        invariant forall h :: 0 <= h < hashTable.Length ==> hashTable[h] < Max(idx, nextToUpdate)
        invariant forall i :: 0 <= i < chainTable.Length ==> chainTable[i] <= DISTANCE_MAX
      {
        var h := HashAt(v, idx - lowLimit, hash, hashTable.Length);
        var delta := Min(idx - hashTable[h], DISTANCE_MAX);
        chainTable[idx % 0x1_0000] := delta;
        hashTable[h] := idx;
        idx := idx + 1;
      }
      nextToUpdate := target;
    }

    function ChainAt(pos: nat): nat
      requires chainTable.Length == 0x1_0000
      reads this, chainTable
    {
      chainTable[pos % 0x1_0000]
    }

    /** `LZ4HC_countBack`, as a count. */
    static method CountBack(v: Bytes, ip: nat, m: nat, iMin: nat, mMin: nat) returns (back: nat)
      requires mMin <= m <= ip <= |v| && iMin <= ip
      ensures iMin + back <= ip && mMin + back <= m && Agree(v, ip - back, m - back, back)
    {
      back := 0;
      AgreeNone(v, ip, m);
      while back < Min(ip - iMin, m - mMin) && v[ip - back - 1] == v[m - back - 1]
        invariant iMin + back <= ip && mMin + back <= m && Agree(v, ip - back, m - back, back)
      {
        back := back + 1;
      }
    }

    /** A candidate whose four bytes are equal, extended both ways; one in the prefix no further back than that goes. */
    static method Extend(q: Query, m: nat) returns (len: nat, back: nat)
      requires q.Valid() && m < q.ip && Word(q.v, m, 4) == Word(q.v, q.ip, 4) && q.ip - m <= DISTANCE_MAX
      requires m < q.dict ==> m + MINMATCH <= q.dict
      ensures back <= m && q.iLow + back <= q.ip && len >= MINMATCH + back && q.ip - back + len <= q.iHigh
      ensures IsMatch(q.v, q.ip - back, m - back, len)
    {
      hide Agree, Word;
      var ip := q.ip;
      AgreeNone(q.v, ip, m);
      AgreeWord(q.v, ip, m, 0, 4);
      back := 0;
      if ip > q.iLow { back := CountBack(q.v, ip, m, q.iLow, if m < q.dict then 0 else q.dict); }
      var n := CountForward(q, m);
      AgreeTriple(q.v, ip, m, back, n);
      len := MINMATCH + n + back;
    }

    /** How far the match goes on behind its first four bytes: in the dictionary up to its end, and if it gets there, on
        from the start of the prefix. */
    static method CountForward(q: Query, m: nat) returns (n: nat)
      requires q.Valid() && m < q.ip && (m < q.dict ==> m + MINMATCH <= q.dict)
      ensures q.ip + MINMATCH + n <= q.iHigh && Agree(q.v, q.ip + MINMATCH, m + MINMATCH, n)
    {
      hide Agree, Word;
      var ip := q.ip;
      if m >= q.dict {
        n := Count(q.v, ip + MINMATCH, m + MINMATCH, q.iHigh);
      } else {
        var vLimit := Min(ip + (q.dict - m), q.iHigh);
        n := Count(q.v, ip + MINMATCH, m + MINMATCH, vLimit);
        if ip + MINMATCH + n == vLimit && vLimit < q.iHigh {
          var more := Count(q.v, ip + MINMATCH + n, q.dict, q.iHigh);
          AgreeJoin(q.v, ip + MINMATCH, m + MINMATCH, n, more);
          n := n + more;
        }
      }
    }

    static lemma AgreeTriple(v: Bytes, a: nat, b: nat, back: nat, n: nat)
      requires back <= b <= a && Agree(v, a, b, 4) && Agree(v, a + 4, b + 4, n)
      requires back == 0 || Agree(v, a - back, b - back, back)
      ensures Agree(v, a - back, b - back, back + 4 + n)
    {
    }

    /** One candidate: a quick test if it lies in the prefix, room for four bytes if it lies in the dictionary, and the
        full test. */
    static method TryCandidate(q: Query, m: nat, longest0: nat, ref0: nat, start0: nat)
      returns (matchLength: nat, longest: nat, ref: nat, start: nat)
      requires q.Valid() && q.Answer(longest0, ref0, start0) && m < q.ip && q.ip - m <= DISTANCE_MAX
      ensures q.Answer(longest, ref, start) && longest >= q.longest0
    {
      hide Agree, Word;
      matchLength, longest, ref, start := 0, longest0, ref0, start0;
      var lookBackLength := q.ip - q.iLow;
      var promising := if m >= q.dict then
          Word(q.v, q.iLow + longest - 1, 2) == Word(q.v, m - lookBackLength + longest - 1, 2)
        else m + MINMATCH <= q.dict;
      if promising {
        if Word(q.v, m, 4) == Word(q.v, q.ip, 4) {
          var back;
          matchLength, back := Extend(q, m);
          if matchLength > longest {
            longest, ref, start := matchLength, m - back, q.ip - back;
          }
        }
      }
    }

    /** A repetition of one byte at the source and at the candidate makes a match of the shorter length. */
    static lemma RunsMatch(v: Bytes, ip: nat, n: nat, m: nat, k: nat, pattern: Bytes, len: nat)
      requires Uniform(pattern) && m < ip && ip - m <= DISTANCE_MAX && len <= n && len <= k
      requires Repeats(v, ip, n, pattern) && m + k <= |v| && forall i :: m <= i < m + k ==> v[i] == pattern[0]
      ensures IsMatch(v, ip, m, len)
    {
    }

    /** Runs of one byte, forwards and backwards. */
    static lemma RunOfByte(v: Bytes, p: nat, n: nat, pattern: Bytes)
      requires Uniform(pattern)
      ensures Repeats(v, p, n, pattern) ==> forall i :: p <= i < p + n ==> v[i] == pattern[0]
      ensures RepeatsBack(v, p, n, pattern) ==> forall i :: p - n <= i < p ==> v[i] == pattern[0]
    {
    }

    static lemma FirstWordRepeats(v: Bytes, p: nat, pattern: Bytes, n: nat)
      requires |pattern| == 4 && p + 4 <= |v| && Word(v, p, 4) == pattern && Repeats(v, p + 4, n, pattern)
      ensures Repeats(v, p, n + 4, pattern)
    {
      forall i | p <= i < p + n + 4
        ensures v[i] == pattern[(i - p) % 4]
      {
        if i < p + 4 {
          assert v[i] == Word(v, p, 4)[i - p];
        } else {
          assert (i - p) % 4 == (i - (p + 4)) % 4;
        }
      }
    }

    /** The length of the run of one byte that starts at a word equal to the pattern. */
    static method RunLength(v: Bytes, p: nat, end: nat, pattern: Bytes) returns (n: nat)
      requires |pattern| == 4 && p + 4 <= end <= |v| && Word(v, p, 4) == pattern
      ensures n >= 4 && p + n <= end && Repeats(v, p, n, pattern)
    {
      n := CountPattern(v, p + 4, end, pattern);
      FirstWordRepeats(v, p, pattern, n);
      n := n + 4;
    }

    /** `LZ4HC_rotatePattern`: the pattern as it goes on when so many of its bytes have been consumed. */
    static function RotatePattern(rotate: int, pattern: Bytes): (r: Bytes)
      requires |pattern| == 4
      ensures Uniform(pattern) ==> r == pattern
    {
      var k := rotate % 4;
      pattern[4 - k..] + pattern[..4 - k]
    }

    /** `LZ4HC_protectDictEnd`: the last three bytes of the dictionary are no place for a match. */
    predicate ProtectDictEnd(index: nat)
      reads `dictLimit
    {
      index >= dictLimit || index + 3 < dictLimit
    }

    /** How far the run goes on from a candidate; from the dictionary it may continue in the prefix. */
    method RunForward(q: Query, p: nat, pattern: Bytes) returns (n: nat)
      requires q.Valid() && Uniform(pattern) && p + 4 <= (if p < q.dict then q.dict else q.iHigh)
      requires Word(q.v, p, 4) == pattern
      ensures n >= 4 && p + n <= q.iHigh && forall i :: p <= i < p + n ==> q.v[i] == pattern[0]
    {
      hide Repeats, Word;
      var iLimit := if p < q.dict then q.dict else q.iHigh;
      n := RunLength(q.v, p, iLimit, pattern);
      RunOfByte(q.v, p, n, pattern);
      if p < q.dict && p + n == iLimit {
        var more := CountPattern(q.v, q.dict, q.iHigh, RotatePattern(n, pattern));
        RunOfByte(q.v, q.dict, more, pattern);
        n := n + more;
      }
    }

    /** How far the run reaches back before a candidate; from the prefix it may come out of the dictionary. */
    method RunBackward(q: Query, p: nat, pattern: Bytes) returns (n: nat)
      requires q.Valid() && Uniform(pattern) && p <= |q.v|
      ensures n <= p && forall i :: p - n <= i < p ==> q.v[i] == pattern[0]
    {
      hide RepeatsBack;
      n := ReverseCountPattern(q.v, p, if p < q.dict then 0 else q.dict, pattern);
      RunOfByte(q.v, p, n, pattern);
      if p >= q.dict && p - n == q.dict && q.dict > 0 {
        var more := ReverseCountPattern(q.v, q.dict, 0, RotatePattern(-(n as int), pattern));
        RunOfByte(q.v, q.dict, more, pattern);
        n := n + more;
      }
    }

    /**
      Analysis of a run of one byte: from the lengths of the run at the source and of the run around the
      candidate, jump to the position in the latter from which most can be copied. At its far end a match is
      claimed from the counted lengths alone.
    */
    method RunAnalysis(q: Query, candidate: nat, lowest: nat, srcPatternLength: nat, pattern: Bytes, longest0: nat,
                       ref0: nat, start0: nat)
      returns (matchIndex: int, stop: bool, longest: nat, ref: nat, start: nat)
      requires Valid() && q.Valid() && q.dict == DictSize() && q.Answer(longest0, ref0, start0)
      requires lowLimit <= lowest <= candidate < q.ip + lowLimit && q.ip + lowLimit - lowest <= DISTANCE_MAX
      requires SourceRun(q, pattern, srcPatternLength)
      requires ProtectDictEnd(candidate) && Word(q.v, candidate - lowLimit, 4) == pattern
      ensures q.Answer(longest, ref, start) && longest >= q.longest0
      ensures matchIndex <= candidate
    {
      hide Repeats, RepeatsBack, Agree, Word;
      longest, ref, start, stop := longest0, ref0, start0, false;
      var p := candidate - lowLimit;
      var forwardPatternLength := RunForward(q, p, pattern);
      var backLength := RunBackward(q, p, pattern);
      backLength := candidate - Max(candidate - backLength, lowest);
      var currentSegmentLength := backLength + forwardPatternLength;
      if currentSegmentLength >= srcPatternLength && forwardPatternLength <= srcPatternLength {
        matchIndex := candidate + forwardPatternLength - srcPatternLength;
        if !ProtectDictEnd(matchIndex) { matchIndex := dictLimit; }
      } else {
        matchIndex := candidate - backLength;
        if !ProtectDictEnd(matchIndex) { return dictLimit, stop, longest, ref, start; }
        if q.ip == q.iLow {
          var maxML := Min(currentSegmentLength, srcPatternLength);
          if longest < maxML {
            RunsMatch(q.v, q.ip, srcPatternLength, matchIndex - lowLimit, currentSegmentLength, pattern, maxML);
            if q.ip + lowLimit - matchIndex > DISTANCE_MAX { return matchIndex, true, longest, ref, start; }
            longest, ref, start := maxML, matchIndex - lowLimit, q.ip;
          }
          var distToNextPattern := ChainAt(matchIndex);
          if distToNextPattern > matchIndex { return matchIndex, true, longest, ref, start; }
          matchIndex := matchIndex - distToNextPattern;
        }
      }
    }

    /** `chainSwap`: among the positions of the match found, the one whose chain reaches furthest back. */
    method BetterChain(matchIndex: nat, longest: nat) returns (distanceToNextMatch: nat, matchChainPos: nat,
                                                               changed: bool)
      requires Valid()
      ensures distanceToNextMatch >= 1
    {
      var kTrigger := 16;
      distanceToNextMatch, matchChainPos, changed := 1, 0, false;
      var end := longest - MINMATCH + 1;
      var step, accel, pos := 1, kTrigger, 0;
      while pos < end
        invariant distanceToNextMatch >= 1 && step >= 1 && accel >= kTrigger && pos >= 0
        decreases end - pos
      {
        var candidateDist := ChainAt(matchIndex + pos);
        step := accel / 16;
        accel := accel + 1;
        if candidateDist > distanceToNextMatch {
          distanceToNextMatch, matchChainPos, changed := candidateDist, pos, true;
          accel := kTrigger;
        }
        pos := pos + step;
      }
    }

    /** The source starts with a run of one byte. */
    static ghost predicate SourceRun(q: Query, pattern: Bytes, n: nat) {
      Uniform(pattern) && Repeats(q.v, q.ip, n, pattern) && q.ip + n <= q.iHigh && n >= MINMATCH
    }

    static method TestRepeat(q: Query, pattern: Bytes) returns (confirmed: bool, srcPatternLength: nat)
      requires q.Valid() && pattern == Word(q.v, q.ip, 4)
      ensures confirmed ==> SourceRun(q, pattern, srcPatternLength)
    {
      hide Repeats, Word;
      confirmed, srcPatternLength := false, 0;
      if pattern[0] == pattern[2] && pattern[1] == pattern[3] && pattern[0] == pattern[3] {
        confirmed := true;
        srcPatternLength := RunLength(q.v, q.ip, q.iHigh, pattern);
      }
    }

    /** `LZ4HC_InsertAndGetWiderMatch`: every match it returns is a match, within its limits. */
    method InsertAndGetWiderMatch(q: Query, maxNbAttempts: nat, patternAnalysis: bool, chainSwap: bool,
                                  favorDecSpeed: bool, hash: Bytes -> nat)
      returns (longest: nat, ref: nat, start: nat)
      requires Valid() && q.Valid() && q.dict == DictSize() && nextToUpdate <= q.ip + lowLimit
      requires chainSwap ==> q.ip == q.iLow
      modifies `nextToUpdate, hashTable, chainTable
      ensures Valid() && nextToUpdate == q.ip + lowLimit
      ensures q.Answer(longest, ref, start) && longest >= q.longest0
    {
      hide Query.Answer, Word, Agree, Repeats, Uniform, SourceRun;
      var ipIndex := q.ip + lowLimit;
      var lowest := if lowLimit + (DISTANCE_MAX + 1) > ipIndex then lowLimit else ipIndex - DISTANCE_MAX;
      var nbAttempts, matchChainPos, srcPatternLength := maxNbAttempts, 0, 0;
      var pattern := Word(q.v, q.ip, 4);
      var untested, confirmed := true, false;
      longest, ref, start := q.longest0, 0, 0;
      NoAnswer(q);
      Insert(q.v, q.ip, hash);
      var matchIndex: int := hashTable[HashAt(q.v, q.ip, hash, hashTable.Length)];
      while matchIndex >= lowest && nbAttempts > 0
        modifies {}
        invariant matchIndex < ipIndex && q.Answer(longest, ref, start) && longest >= q.longest0
        invariant confirmed ==> !untested && SourceRun(q, pattern, srcPatternLength)
        decreases nbAttempts
      {
        var matchLength := 0;
        nbAttempts := nbAttempts - 1;
        if !(favorDecSpeed && ipIndex - matchIndex < 8) {
          matchLength, longest, ref, start := TryCandidate(q, matchIndex - lowLimit, longest, ref, start);
        }
        if chainSwap && matchLength == longest {
          if matchIndex + longest <= ipIndex {
            var distanceToNextMatch, chainPos, changed := BetterChain(matchIndex, longest);
            if changed { matchChainPos := chainPos; }
            if distanceToNextMatch > 1 {
              if distanceToNextMatch > matchIndex { break; }
              matchIndex := matchIndex - distanceToNextMatch;
              continue;
            }
          }
        }
        var distNextMatch := ChainAt(matchIndex);
        if patternAnalysis && distNextMatch == 1 && matchChainPos == 0 {
          var candidate := matchIndex - 1;
          if untested {
            untested := false;
            confirmed, srcPatternLength := TestRepeat(q, pattern);
          }
          if confirmed && candidate >= lowest && ProtectDictEnd(candidate) {
            if Word(q.v, candidate - lowLimit, 4) == pattern {
              var stop;
              matchIndex, stop, longest, ref, start := RunAnalysis(q, candidate, lowest, srcPatternLength, pattern,
                                                                   longest, ref, start);
              if stop { break; }
              continue;
            }
          }
        }
        matchIndex := matchIndex - ChainAt(matchIndex + matchChainPos);
      }
    }

    static lemma NoAnswer(q: Query)
      requires q.Valid()
      ensures q.Answer(q.longest0, 0, 0)
    {
    }
  }
}
