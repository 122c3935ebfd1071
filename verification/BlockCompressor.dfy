/**
  The fast block compressor, `LZ4_compress_generic_validated`.

  Source and dictionary are seen as one run of bytes `v`: the first `s0` bytes are what precedes the
  block (prefix or external dictionary) and the rest is the block. Table entries are indexes; index
  `start` is the first byte of the block. The hash function is arbitrary: candidates are re-checked by
  content and distance, so correctness cannot depend on it.
*/
module BlockCompressor {
  import opened Wrappers
  import opened Lz4Format
  import opened BlockWriter
  import opened MatchCount

  datatype Directive = NotLimited | LimitedOutput | FillOutput

  datatype TableType = ByU32 | ByU16

  /** Where what precedes the block lies. With an attached stream, `entries` is the table of that stream and `dictDelta`
      turns its indexes into those of the current one. */
  datatype DictDirective = NoDict | WithPrefix64k | UsingExtDict | UsingDictCtx(entries: seq<nat>, dictDelta: nat)

  const LIMIT_64K := 65536 + (MFLIMIT - 1)

  /** `LZ4_COMPRESSBOUND`. */
  function CompressBound(n: nat): nat {
    n + n / 255 + 16
  }

  /** What stays fixed during one compression. `small` is the dictSmall directive. */
  datatype Job = Job(v: Bytes, s0: nat, start: nat, tableType: TableType, dict: DictDirective, small: bool,
                     hash: Bytes -> nat)
  {
    ghost predicate Valid() {
      && s0 <= |v| && s0 <= start
      && (dict == NoDict ==> s0 == 0)
      && (External() ==> s0 == 0 || s0 >= MINMATCH)
      && (tableType == ByU16 ==> dict == NoDict && start + |v| < LIMIT_64K)
    }

    /** Whether what precedes the block lies apart from it (maybe_extMem). */
    predicate External() {
      dict.UsingExtDict? || dict.UsingDictCtx?
    }

    /** The index that the table offers at `h`: an entry from before the block gives way to that of the attached
        stream. */
    function Candidate(e: nat, h: nat): nat {
      if dict.UsingDictCtx? && e < start && h < |dict.entries| then dict.entries[h] + dict.dictDelta else e
    }

    /** Index of the first byte of `v` (prefixIdxLimit). */
    function Delta(): nat
      requires s0 <= start
    {
      start - s0
    }

    function HashAt(p: nat, size: nat): (h: nat)
      requires p + 8 <= |v| && size > 0
      ensures h < size
    {
      hash(v[p..p + 8]) % size
    }

    /** An entry that may be met while compressing: below `next`; if it belongs to an earlier block, four
        bytes can be read there; if it was put during this block, it is at its own hash; when old entries
        are not filtered by index, those outside the dictionary are too far away; and entries of 16-bit
        tables fit. */
    ghost predicate EntryOk(e: nat, h: nat, size: nat, next: nat)
      requires s0 <= start && size > 0
    {
      && e < next
      && (e < start ==> e == 0 || e + MINMATCH <= start)
      && (e > start ==> e - Delta() + 8 <= |v| && HashAt(e - Delta(), size) == h)
      && (!small && e < Delta() ==> tableType == ByU32 && e + DISTANCE_MAX < start)
      && (tableType == ByU16 ==> e < 0x1_0000)
    }

    ghost predicate TableOk(table: seq<nat>, next: nat)
      requires s0 <= start
    {
      |table| > 0 && forall h :: 0 <= h < |table| ==> EntryOk(Candidate(table[h], h), h, |table|, next)
    }

    /** The checks made on a candidate before its bytes are read. */
    predicate Acceptable(matchIndex: nat, current: nat)
      requires s0 <= start
    {
      !(small && matchIndex < Delta()) && (tableType == ByU16 || matchIndex + DISTANCE_MAX >= current)
    }

    /** A match at `m` for position `ip`, with the limit below which it must not be extended. */
    ghost predicate IsMatch(ip: nat, m: nat, low: nat, len: nat) {
      && s0 <= ip && low <= m < ip && ip - m <= DISTANCE_MAX && ip + len <= |v|
      && low == LowLimit(m)
      && (low < s0 && External() ==> m + MINMATCH <= s0)
      && Agree(v, ip, m, len)
    }

    /** `lowLimit`: with an external dictionary, matches in the block are not extended into it. */
    function LowLimit(m: nat): nat {
      if External() && m >= s0 then s0 else 0
    }
  }

  /** An entry that passes the checks denotes a readable, strictly earlier position within 65535 bytes.
      For 16-bit tables the distance is not checked: the input limit of 64 KB bounds it. */
  lemma AcceptedInRange(j: Job, e: nat, h: nat, size: nat, next: nat, p: nat)
    requires j.Valid() && size > 0 && j.EntryOk(e, h, size, next)
    requires j.s0 <= p && p + MFLIMIT <= |j.v| && next <= p + j.Delta()
    requires j.Acceptable(e, p + j.Delta())
    ensures e >= j.Delta()
    ensures var m := e - j.Delta();
      m < p && p - m <= DISTANCE_MAX && (j.External() && m < j.s0 ==> m + MINMATCH <= j.s0)
  {
  }

  // ---------------------------------------------------------------- the choice of sequences, as functions

  /** The words of four bytes at two positions are equal. */
  predicate SameWord(v: Bytes, m: nat, ip: nat) {
    m + 4 <= |v| && ip + 4 <= |v| && Word(v, m, 4) == Word(v, ip, 4)
  }

  /** A candidate is taken when its index passes the checks and its first bytes are the same. */
  predicate Taken(j: Job, e: nat, p: nat)
    requires j.s0 <= j.start
  {
    j.Acceptable(e, p + j.Delta()) && e >= j.Delta() && e - j.Delta() < p && SameWord(j.v, e - j.Delta(), p)
  }

  datatype Searched = Miss(table: seq<nat>) | Hit(ip: nat, m: nat, table: seq<nat>)

  /** What a search finds, and the table after it. */
  function Search(j: Job, table: seq<nat>, p: nat, step: nat, searchMatchNb: nat): (r: Searched)
    requires j.s0 <= j.start && |table| > 0 && p + MFLIMIT - 1 <= |j.v| && step >= 1 && searchMatchNb >= 64
    ensures |r.table| == |table|
    ensures r.Hit? ==> p <= r.ip && r.ip + MFLIMIT <= |j.v| && r.m < r.ip
    decreases |j.v| - p
  {
    if p + step > |j.v| - MFLIMIT + 1 then Miss(table)
    else
      var h := j.HashAt(p, |table|);
      var e, t := j.Candidate(table[h], h), table[h := p + j.Delta()];
      if Taken(j, e, p) then Hit(p, e - j.Delta(), t)
      else Search(j, t, p + step, searchMatchNb / 64, searchMatchNb + 1)
  }

  /** One turn of a search. */
  lemma SearchStep(j: Job, table: seq<nat>, p: nat, step: nat, searchMatchNb: nat)
    requires j.s0 <= j.start && |table| > 0 && p + MFLIMIT - 1 <= |j.v| && step >= 1 && searchMatchNb >= 64
    ensures p + step > |j.v| - MFLIMIT + 1 ==> Search(j, table, p, step, searchMatchNb) == Miss(table)
    ensures p + step <= |j.v| - MFLIMIT + 1 ==>
      var h := j.HashAt(p, |table|);
      var e, t := j.Candidate(table[h], h), table[h := p + j.Delta()];
      Search(j, table, p, step, searchMatchNb)
        == if Taken(j, e, p) then Hit(p, e - j.Delta(), t)
           else Search(j, t, p + step, searchMatchNb / 64, searchMatchNb + 1)
  {
  }

  /** How far a match is extended backwards. */
  function Back(v: Bytes, anchor: nat, ip: nat, m: nat, low: nat): (k: nat)
    requires m < ip <= |v|
    ensures k <= m && (anchor <= ip ==> anchor + k <= ip)
  {
    if ip > anchor && m > low && v[ip - 1] == v[m - 1] then 1 + Back(v, anchor, ip - 1, m - 1, low) else 0
  }

  /** The length of the longest common prefix. */
  function Common(v: Bytes, a: nat, b: nat, limit: nat): (n: nat)
    requires b <= a <= limit <= |v|
    ensures a + n <= limit
    decreases limit - a
  {
    if a < limit && v[a] == v[b] then 1 + Common(v, a + 1, b + 1, limit) else 0
  }

  lemma {:induction false} CommonOf(v: Bytes, a: nat, b: nat, limit: nat, n: nat)
    requires CommonLength(v, a, b, limit, n)
    ensures a <= limit && n == Common(v, a, b, limit)
    decreases n
  {
    if n > 0 {
      CommonShifted(v, a, b, limit, n);
      hide CommonLength;
      CommonOf(v, a + 1, b + 1, limit, n - 1);
    }
  }

  lemma CommonParts(v: Bytes, a: nat, b: nat, limit: nat, n: nat)
    requires CommonLength(v, a, b, limit, n)
    ensures Agree(v, a, b, n) && a + n <= limit <= |v| && (a + n < limit ==> v[a + n] != v[b + n])
  {
    hide Agree;
    if a + n < limit { AgreeOrder(v, a, b, n); }
  }

  lemma AgreeOrder(v: Bytes, a: nat, b: nat, n: nat)
    requires Agree(v, a, b, n)
    ensures b <= a
  {
  }

  lemma CommonShifted(v: Bytes, a: nat, b: nat, limit: nat, n: nat)
    requires CommonLength(v, a, b, limit, n) && n > 0
    ensures b <= a < limit <= |v| && v[a] == v[b] && CommonLength(v, a + 1, b + 1, limit, n - 1)
  {
    assert v[a] == v[a - (a - b)];
  }

  /** The limit on a block's output: none, or the bytes there are. */
  datatype Budget = Unlimited | Limited(olimit: nat)

  function BudgetOf(directive: Directive, olimit: nat): Budget {
    if directive == NotLimited then Unlimited else Limited(olimit)
  }

  /** The check before literals are written at `op`. */
  predicate LiteralsTooLong(b: Budget, op: nat, ll: nat) {
    b.Limited? && op + 1 + ll + (2 + 1 + LASTLITERALS) + ll / 255 > b.olimit
  }

  /** The check before a match length is written at `op`. */
  predicate MatchTooLong(b: Budget, op: nat, mc: nat) {
    b.Limited? && op + (1 + LASTLITERALS) + (mc + 240) / 255 > b.olimit
  }

  datatype Chosen = Stop(noRoom: bool, table: seq<nat>) | One(s: Sequence, table: seq<nat>)

  /** The match at `ip`, after the literals from the anchor. */
  function ChooseMatch(j: Job, table: seq<nat>, b: Budget, token: nat, anchor: nat, ip: nat, m: nat): (r: Chosen)
    requires anchor <= ip && m < ip && ip + MFLIMIT <= |j.v|
    ensures |r.table| == |table|
    ensures r.One? ==> r.s.mlen >= MINMATCH && anchor + |r.s.lits| + r.s.mlen + LASTLITERALS <= |j.v|
  {
    var mc := Common(j.v, ip + MINMATCH, m + MINMATCH, |j.v| - LASTLITERALS);
    var op := token + 1 + (ip - anchor + 240) / 255 + (ip - anchor) + 2;
    if MatchTooLong(b, op, mc) then Stop(true, table) else One(Sequence(j.v[anchor..ip], ip - m, MINMATCH + mc), table)
  }

  /** The next sequence, written at `token`: from a match already at hand (at the anchor), or by searching from `ip`. */
  function Choose(j: Job, table: seq<nat>, b: Budget, acceleration: nat, token: nat, anchor: nat, ip: nat,
                  at: Option<nat>): (r: Chosen)
    requires j.s0 <= j.start && |table| > 0 && acceleration >= 1 && anchor <= ip
    requires if at.Some? then at.value < ip && ip + MFLIMIT <= |j.v| else ip + MFLIMIT - 1 <= |j.v|
    ensures |r.table| == |table|
    ensures r.One? ==> r.s.mlen >= MINMATCH && anchor + |r.s.lits| + r.s.mlen + LASTLITERALS <= |j.v|
  {
    if at.Some? then ChooseMatch(j, table, b, token, anchor, ip, at.value)
    else
      match Search(j, table, ip, 1, acceleration * 64)
      case Miss(t) => Stop(false, t)
      case Hit(p, m, t) =>
        var k := Back(j.v, anchor, p, m, j.LowLimit(m));
        if LiteralsTooLong(b, token, p - k - anchor) then Stop(true, t)
        else ChooseMatch(j, t, b, token, anchor, p - k, m - k)
  }

  /** After a match that ends at `ip`: the table is filled, and a match right there is taken at once. */
  function AfterMatch(j: Job, table: seq<nat>, ip: nat): (r: (Option<nat>, seq<nat>))
    requires j.s0 <= j.start && |table| > 0 && 2 <= ip && ip + MFLIMIT <= |j.v|
    ensures |r.1| == |table| && (r.0.Some? ==> r.0.value < ip)
  {
    var t := table[j.HashAt(ip - 2, |table|) := ip - 2 + j.Delta()];
    var h := j.HashAt(ip, |table|);
    var e := j.Candidate(t[h], h);
    (if Taken(j, e, ip) then Some(e - j.Delta()) else None, t[h := ip + j.Delta()])
  }

  datatype Run = Run(noRoom: bool, seqs: seq<Sequence>, table: seq<nat>, size: nat)

  /** The bytes that a sequence takes when written. */
  function WrittenSize(s: Sequence): nat
    requires s.mlen >= MINMATCH
  {
    1 + (|s.lits| + 240) / 255 + |s.lits| + 2 + (s.mlen - MINMATCH + 240) / 255
  }

  /** How many bytes of input sequences stand for. */
  function Covered(seqs: seq<Sequence>): nat {
    if |seqs| == 0 then 0 else |seqs[0].lits| + seqs[0].mlen + Covered(seqs[1..])
  }

  /** All sequences from the anchor on, the first of them written at `token`. */
  function Sequences(j: Job, table: seq<nat>, b: Budget, acceleration: nat, token: nat, anchor: nat, ip: nat,
                     at: Option<nat>): (r: Run)
    requires j.s0 <= j.start && |table| > 0 && acceleration >= 1 && anchor <= ip
    requires if at.Some? then at.value < ip && ip + MFLIMIT <= |j.v| else ip + MFLIMIT - 1 <= |j.v|
    ensures |r.table| == |table| && anchor + Covered(r.seqs) <= |j.v|
    decreases |j.v| - anchor
  {
    match Choose(j, table, b, acceleration, token, anchor, ip, at)
    case Stop(noRoom, t) => Run(noRoom, [], t, token)
    case One(s, t) =>
      var end := anchor + |s.lits| + s.mlen;
      var token' := token + WrittenSize(s);
      if end + MFLIMIT > |j.v| then Run(false, [s], t, token')
      else
        var (at', t') := AfterMatch(j, t, end);
        var rest := Sequences(j, t', b, acceleration, token', end, if at'.Some? then end else end + 1, at');
        assert ([s] + rest.seqs)[1..] == rest.seqs;
        Run(rest.noRoom, [s] + rest.seqs, rest.table, rest.size)
  }

  method Put(table: array<nat>, j: Job, p: nat, h: nat, ghost next: nat)
    requires j.Valid() && j.TableOk(table[..], next) && j.s0 <= p && p + MFLIMIT <= |j.v|
    requires h == j.HashAt(p, table.Length) && next <= p + 1 + j.Delta()
    modifies table
    ensures j.TableOk(table[..], p + 1 + j.Delta()) && table[..] == old(table[..])[h := p + j.Delta()]
  {
    table[h] := p + j.Delta();
  }

  /** One candidate: its index, its distance and its first four bytes. */
  method TestCandidate(j: Job, matchIndex: nat, ip: nat, ghost h: nat, ghost size: nat)
    returns (taken: bool, m: nat, low: nat)
    requires j.Valid() && size > 0 && j.s0 <= ip && ip + MFLIMIT <= |j.v|
    requires j.EntryOk(matchIndex, h, size, ip + j.Delta())
    ensures taken <==> Taken(j, matchIndex, ip)
    ensures taken ==> m == matchIndex - j.Delta() && j.IsMatch(ip, m, low, MINMATCH)
  {
    hide Agree, Word;
    taken, m, low := false, 0, 0;
    if j.Acceptable(matchIndex, ip + j.Delta()) {
      AcceptedInRange(j, matchIndex, h, size, ip + j.Delta(), ip);
      m := matchIndex - j.Delta();
      low := j.LowLimit(m);
      if Word(j.v, m, 4) == Word(j.v, ip, 4) {
        AgreeNone(j.v, ip, m);
        AgreeWord(j.v, ip, m, 0, 4);
        taken := true;
      }
    }
  }

  /** The search for a match from `ip0` on: stops at the first acceptable candidate whose four bytes are
      equal, or when fewer than twelve bytes would be left. */
  method FindMatch(table: array<nat>, j: Job, ip0: nat, forwardH0: nat, acceleration: nat)
    returns (found: bool, ip: nat, m: nat, low: nat)
    requires j.Valid() && j.s0 <= ip0 && ip0 + MFLIMIT - 1 <= |j.v| && acceleration >= 1
    requires j.TableOk(table[..], ip0 + j.Delta()) && forwardH0 == j.HashAt(ip0, table.Length)
    modifies table
    ensures found ==> ip0 <= ip && ip + MFLIMIT <= |j.v| && j.IsMatch(ip, m, low, MINMATCH)
    ensures j.TableOk(table[..], (if found then ip + 1 else |j.v| - MFLIMIT + 1) + j.Delta())
    ensures Search(j, old(table[..]), ip0, 1, acceleration * 64)
      == if found then Hit(ip, m, table[..]) else Miss(table[..])
  {
    hide Job.EntryOk, Agree, Search, Taken;
    ip, m, low := ip0, 0, 0;
    var forwardIp := ip0;
    var step := 1;
    var searchMatchNb := acceleration * 64;
    var forwardH := forwardH0;
    while true
      invariant ip0 <= forwardIp && forwardIp + MFLIMIT - 1 <= |j.v| && step >= 1 && searchMatchNb >= 64
      invariant forwardH == j.HashAt(forwardIp, table.Length)
      invariant j.TableOk(table[..], forwardIp + j.Delta())
      invariant Search(j, old(table[..]), ip0, 1, acceleration * 64) == Search(j, table[..], forwardIp, step,
                                                                               searchMatchNb)
      decreases |j.v| - forwardIp
    {
      SearchStep(j, table[..], forwardIp, step, searchMatchNb);
      var h := forwardH;
      var current := forwardIp + j.Delta();
      var matchIndex := j.Candidate(table[h], h);
      ip := forwardIp;
      forwardIp := forwardIp + step;
      step := searchMatchNb / 64;
      searchMatchNb := searchMatchNb + 1;
      if forwardIp > |j.v| - MFLIMIT + 1 {
        TableLater(j, table[..], current, |j.v| - MFLIMIT + 1 + j.Delta());
        return false, ip, m, low;
      }
      assert j.EntryOk(j.Candidate(table[..][h], h), h, table.Length, current);
      forwardH := j.HashAt(forwardIp, table.Length);
      Put(table, j, ip, h, current);
      found, m, low := TestCandidate(j, matchIndex, ip, h, table.Length);
      if found { return; }
      TableLater(j, table[..], ip + 1 + j.Delta(), forwardIp + j.Delta());
    }
  }

  lemma TableLater(j: Job, table: seq<nat>, next: nat, later: nat)
    requires j.s0 <= j.start && j.TableOk(table, next) && next <= later
    ensures j.TableOk(table, later)
  {
  }

  /** Catch up: extend the match backwards, down to the anchor and the low limit. */
  method CatchUp(j: Job, anchor: nat, ip0: nat, m0: nat, low: nat) returns (ip: nat, m: nat)
    requires j.Valid() && j.s0 <= anchor <= ip0 && j.IsMatch(ip0, m0, low, MINMATCH)
    ensures anchor <= ip <= ip0 && ip0 - ip == m0 - m && j.IsMatch(ip, m, low, MINMATCH + (ip0 - ip))
    ensures ip0 - ip == Back(j.v, anchor, ip0, m0, low)
  {
    hide Job.IsMatch, Back;
    MatchFacts(j, ip0, m0, low, MINMATCH);
    ip, m := ip0, m0;
    while ip > anchor && m > low && j.v[ip - 1] == j.v[m - 1]
      invariant anchor <= ip <= ip0 && ip0 - ip == m0 - m && j.IsMatch(ip, m, low, MINMATCH + (ip0 - ip))
      invariant Back(j.v, anchor, ip0, m0, low) == (ip0 - ip) + Back(j.v, anchor, ip, m, low)
    {
      BackStep(j.v, anchor, ip, m, low);
      MatchBack(j, ip, m, low, MINMATCH + (ip0 - ip));
      ip, m := ip - 1, m - 1;
    }
    BackStep(j.v, anchor, ip, m, low);
  }

  lemma MatchFacts(j: Job, ip: nat, m: nat, low: nat, len: nat)
    requires j.IsMatch(ip, m, low, len)
    ensures j.s0 <= ip && low <= m < ip && ip - m <= DISTANCE_MAX && ip + len <= |j.v|
  {
  }

  lemma BackStep(v: Bytes, anchor: nat, ip: nat, m: nat, low: nat)
    requires m < ip <= |v|
    ensures Back(v, anchor, ip, m, low)
      == if ip > anchor && m > low && v[ip - 1] == v[m - 1] then 1 + Back(v, anchor, ip - 1, m - 1, low) else 0
  {
  }

  /** One byte more in front. */
  lemma MatchBack(j: Job, ip: nat, m: nat, low: nat, len: nat)
    requires j.IsMatch(ip, m, low, len) && ip > j.s0 && m > low && j.v[ip - 1] == j.v[m - 1]
    ensures j.IsMatch(ip - 1, m - 1, low, len + 1)
  {
    hide Agree;
    AgreeBack(j.v, ip, m, len);
  }

  lemma AgreeBack(v: Bytes, a: nat, b: nat, n: nat)
    requires 0 < b && Agree(v, a, b, n) && a <= |v| && v[a - 1] == v[b - 1]
    ensures Agree(v, a - 1, b - 1, n + 1)
  {
  }

  /** A longest match is at least as long as any match known within the limit. */
  lemma LongestIsLonger(v: Bytes, a: nat, b: nat, n: nat, limit: nat, k: nat)
    requires Agree(v, a, b, n) && a + n <= limit <= |v| && (a + n < limit ==> v[a + n] != v[b + n])
    requires Agree(v, a, b, k) && a + k <= limit
    ensures k <= n
  {
    hide Agree;
    if k > n { AgreeAt(v, a, b, k, n); }
  }

  /** Two counts in a row, the second starting where the first met its limit, are one count. */
  lemma CommonLengthJoin(v: Bytes, a: nat, b: nat, limit: nat, n: nat, limit2: nat, k: nat)
    requires CommonLength(v, a, b, limit, n) && a + n == limit && CommonLength(v, a + n, b + n, limit2, k)
    ensures CommonLength(v, a, b, limit2, n + k)
  {
    hide Agree;
    AgreeJoin(v, a, b, n, k);
  }

  /** Counting from the fifth byte of a match, up to five bytes before the end. In an external dictionary
      the count first stops at the end of the dictionary and goes on at the start of the block. */
  method CountMatch(j: Job, ip: nat, m: nat, low: nat) returns (n: nat)
    requires j.Valid() && j.IsMatch(ip, m, low, MINMATCH) && ip + MINMATCH + LASTLITERALS <= |j.v|
    ensures CommonLength(j.v, ip + MINMATCH, m + MINMATCH, |j.v| - LASTLITERALS, n)
  {
    hide Agree;
    var matchlimit := |j.v| - LASTLITERALS;
    if j.External() && low == 0 && j.s0 > 0 {
      var limit := Min(ip + (j.s0 - m), matchlimit);
      n := Count(j.v, ip + MINMATCH, m + MINMATCH, limit);
      if ip + MINMATCH + n == limit {
        var more := Count(j.v, limit, j.s0, matchlimit);
        if limit < matchlimit {
          CommonLengthJoin(j.v, ip + MINMATCH, m + MINMATCH, limit, n, matchlimit, more);
        }
        n := n + more;
      }
    } else {
      n := Count(j.v, ip + MINMATCH, m + MINMATCH, matchlimit);
    }
  }

  method MatchLength(j: Job, ip: nat, m: nat, low: nat, ghost known: nat) returns (matchCode: nat)
    requires j.Valid() && j.IsMatch(ip, m, low, known) && known >= MINMATCH && ip + known + LASTLITERALS <= |j.v|
    ensures j.IsMatch(ip, m, low, MINMATCH + matchCode) && ip + MINMATCH + matchCode + LASTLITERALS <= |j.v|
    ensures MINMATCH + matchCode >= known
    ensures matchCode == Common(j.v, ip + MINMATCH, m + MINMATCH, |j.v| - LASTLITERALS)
  {
    hide Agree, Common, CommonLength;
    AgreeShorter(j.v, ip, m, known, MINMATCH);
    matchCode := CountMatch(j, ip, m, low);
    CommonOf(j.v, ip + MINMATCH, m + MINMATCH, |j.v| - LASTLITERALS, matchCode);
    CommonParts(j.v, ip + MINMATCH, m + MINMATCH, |j.v| - LASTLITERALS, matchCode);
    AgreeJoin(j.v, ip, m, MINMATCH, matchCode);
    LongestIsLonger(j.v, ip, m, MINMATCH + matchCode, |j.v| - LASTLITERALS, known);
  }

  /** A match of `n` bytes at `ip` is what the decoder will copy. */
  lemma MatchDecodes(v: Bytes, ip: nat, m: nat, n: nat)
    requires m < ip && Agree(v, ip, m, n)
    ensures CopyMatch(v[..ip], ip - m, n) == v[..ip + n]
  {
    var r := v[..ip + n];
    assert r[..ip] == v[..ip];
    forall i | ip <= i < |r|
      ensures r[i] == r[i - (ip - m)]
    {
      assert v[i] == v[i - (ip - m)];
    }
    CopyMatchUnique(v[..ip], ip - m, n, r);
  }

  // ---------------------------------------------------------------- sizes

  /** What `c` input bytes may cost as sequences. */
  function SequencesBound(c: nat): nat {
    c + c / 255
  }

  /** A sequence never costs more than its share of the bound. */
  lemma SequenceCost(op: nat, c: nat, ll: nat, mc: nat)
    requires op <= SequencesBound(c)
    ensures op + 1 + (ll + 240) / 255 + ll + 2 + (mc + 240) / 255 <= SequencesBound(c + ll + mc + MINMATCH)
  {
    var n := ll + mc + MINMATCH;
    assert (ll + 240) / 255 + (mc + 240) / 255 + ll + 3 <= n + n / 255;
    assert c / 255 + n / 255 <= (c + n) / 255;
  }

  /** In unlimited mode there is always room for a sequence and for what its copies overshoot. */
  lemma SequenceRoom(op: nat, c: nat, ll: nat, mc: nat, total: nat)
    requires op <= SequencesBound(c) && c + ll + MINMATCH + mc + LASTLITERALS <= total
    ensures op + 1 + ll + 8 + (ll + 240) / 255 <= CompressBound(total)
    ensures op + 1 + ll + 8 + ll / 255 <= CompressBound(total)
    ensures op + 1 + (ll + 240) / 255 + ll + 2 + (mc + 240) / 255 + 6 <= CompressBound(total)
  {
    SequenceCost(op, c, ll, mc);
    var d := total - (c + ll + mc + MINMATCH);
    assert (c + ll + mc + MINMATCH) / 255 <= total / 255;
    assert (c + ll) / 255 <= total / 255;
    assert c / 255 + ll / 255 <= (c + ll) / 255;
    assert (ll + 240) / 255 <= ll / 255 + 1;
  }

  /** The closing run fits as well. */
  lemma LastRunRoom(op: nat, c: nat, lastRun: nat)
    requires op <= SequencesBound(c)
    ensures op + lastRun + 1 + (lastRun + 240) / 255 <= CompressBound(c + lastRun)
  {
    assert c / 255 + lastRun / 255 <= (c + lastRun) / 255;
    assert (lastRun + 240) / 255 <= lastRun / 255 + 1;
  }

  /** What a closing run of `l` literals costs. */
  function RunCost(l: nat): nat {
    1 + l + (l + 240) / 255
  }

  /** The closing run of fill mode, for `room` bytes left in the destination. */
  function FillRun(room: nat): (l: nat)
    requires room >= 1
    ensures l <= room - 1
    ensures room >= 6 ==> l >= 5
    ensures room <= 15 ==> l == room - 1
    ensures room >= 15 ==> l >= 14
  {
    var x := room - 1;
    x - (x + 256 - RUN_MASK) / 256
  }

  /** It is the largest run whose encoding fits. */
  lemma FillRunLargest(room: nat, l: nat)
    requires room >= 1
    ensures RunCost(l) <= room <==> l <= FillRun(room)
  {
    var x := room - 1;
    var q, r := (x + 241) / 256, (x + 241) % 256;
    assert x == 256 * q + r - 241;
    var f := FillRun(room);
    assert f == 255 * q + r - 241;
    assert RunCost(f) <= room;
    assert RunCost(f + 1) > room;
    if l > f { assert (l + 240) / 255 >= (f + 1 + 240) / 255; }
    if l < f { assert (l + 240) / 255 <= (f + 240) / 255; }
  }

  // ---------------------------------------------------------------- one sequence

  datatype Status = Continue | NoRoom | LastLiterals

  /** Room for what is written at `op`: in unlimited mode what the bound leaves, otherwise up to `olimit`. */
  ghost predicate Fits(directive: Directive, dst: array<byte>, olimit: nat, total: nat) {
    if directive == NotLimited then CompressBound(total) <= dst.Length else olimit <= dst.Length
  }

  /** Literal length and literals. */
  method EncodeLiterals(dst: array<byte>, op0: nat, j: Job, anchor: nat, ip: nat, directive: Directive, olimit: nat)
    returns (status: Status, op: nat)
    requires j.Valid() && j.s0 <= anchor <= ip && ip + MFLIMIT <= |j.v| && Fits(directive, dst, olimit, |j.v| - j.s0)
    requires op0 <= SequencesBound(anchor - j.s0) && op0 <= dst.Length
    modifies dst
    ensures status == Continue ==> Appended(dst, op0, op, EmitLiterals(j.v[anchor..ip], 0))
    ensures status != Continue ==> op == op0 && dst[..op0] == old(dst[..op0])
    ensures status == Continue ==> op == op0 + 1 + (ip - anchor + 240) / 255 + (ip - anchor)
    ensures status == Continue && directive == LimitedOutput ==> op + 7 <= olimit
    ensures status == Continue && directive == FillOutput ==> op + 11 <= olimit
    ensures directive == NotLimited ==> status == Continue
    ensures status == NoRoom ==> directive == LimitedOutput && olimit < CompressBound(|j.v| - j.s0)
    ensures status == LastLiterals ==> directive == FillOutput
    ensures directive != FillOutput ==>
      (status == NoRoom <==> LiteralsTooLong(BudgetOf(directive, olimit), op0, ip - anchor))
  {
    var litLength := ip - anchor;
    SequenceRoom(op0, anchor - j.s0, litLength, 0, |j.v| - j.s0);
    op := op0 + 1;
    if directive == LimitedOutput && op + litLength + (2 + 1 + LASTLITERALS) + litLength / 255 > olimit {
      return NoRoom, op0;
    }
    if directive == FillOutput && op + (litLength + 240) / 255 + litLength + 2 + 1 + MFLIMIT - MINMATCH > olimit {
      return LastLiterals, op0;
    }
    assert j.v[anchor..anchor + litLength] == j.v[anchor..ip];
    op := WriteLiterals(dst, op0, j.v, anchor, litLength);
    status := Continue;
  }

  /** Clearing the entries of positions at and after `ip` that were put before the match was shortened. */
  method ClearPositions(table: array<nat>, j: Job, ip: nat, filledIp: nat)
    requires j.Valid() && j.start == 0 && j.s0 <= ip && filledIp + MFLIMIT <= |j.v|
    requires j.TableOk(table[..], filledIp + 1 + j.Delta()) && ip > 0
    modifies table
    ensures j.TableOk(table[..], ip + j.Delta())
  {
    var ptr := ip;
    while ptr <= filledIp
      invariant ip <= ptr && (ptr <= filledIp + 1 || ptr == ip)
      invariant table.Length > 0 && forall h :: 0 <= h < table.Length ==> table[h] == 0 || table[h] == old(table[h])
      invariant forall q :: ip <= q < ptr ==> table[j.HashAt(q, table.Length)] == 0
    {
      var h := j.HashAt(ptr, table.Length);
      table[h] := 0;
      ptr := ptr + 1;
    }
    forall h | 0 <= h < table.Length
      ensures j.EntryOk(j.Candidate(table[..][h], h), h, table.Length, ip + j.Delta())
    {
      assert j.EntryOk(j.Candidate(old(table[..])[h], h), h, table.Length, filledIp + 1 + j.Delta());
    }
  }

  /** The match code in fill mode when its bytes do not all fit: it uses exactly the `k` bytes available. */
  lemma ReducedCode(k: nat, matchCode: nat)
    requires k >= 3 && (matchCode + 240) / 255 > k
    ensures var reduced := 15 - 1 + k * 255; ML_MASK <= reduced < matchCode && (reduced + 240) / 255 == k
  {
  }

  /** The bytes of one match: offset, then match length, completing the token that stands at `token`. */
  method WriteMatch(dst: array<byte>, token: nat, op0: nat, offset: nat, mc: nat, ghost pre: Bytes, ghost lits: Bytes)
    returns (op: nat)
    requires 1 <= offset <= DISTANCE_MAX && token + 1 + (|lits| + 240) / 255 + |lits| == op0 - 2
    requires op0 + (mc + 240) / 255 + 4 <= dst.Length
    requires token == |pre| && dst[..op0] == pre + EmitLiterals(lits, 0) + [offset % 256, offset / 256]
    modifies dst
    ensures op == op0 + (mc + 240) / 255
    ensures dst[..op] == pre + EmitSequence(Sequence(lits, offset, mc + MINMATCH))
  {
    hide EmitLiterals, EmitSequence;
    CompleteToken(dst, op0, offset, mc, pre, lits, token);
    op := op0;
    if mc >= ML_MASK {
      op := WriteMatchLength(dst, op0, mc);
    } else {
      assert dst[..op] == dst[..op] + LenExt(mc);
    }
    SequenceWritten(pre, Sequence(lits, offset, mc + MINMATCH), dst[..op]);
  }

  /** What is written for the match at `ip0` is what is chosen. */
  ghost predicate MatchChosen(j: Job, b: Budget, token: nat, anchor: nat, ip0: nat, m: nat, status: Status, ip: nat) {
    && anchor <= ip0 && m < ip0 && ip0 + MFLIMIT <= |j.v| && (status == NoRoom || status == Continue)
    && (status == Continue ==> ip0 <= ip)
    && forall table: seq<nat> {:trigger ChooseMatch(j, table, b, token, anchor, ip0, m)} ::
         ChooseMatch(j, table, b, token, anchor, ip0, m)
           == if status == NoRoom then Stop(true, table) else One(Sequence(j.v[anchor..ip0], ip0 - m, ip - ip0), table)
  }

  lemma MatchSettled(j: Job, b: Budget, token: nat, anchor: nat, ip0: nat, m: nat, status: Status, matchCode: nat)
    requires anchor <= ip0 && m < ip0 && ip0 + MFLIMIT <= |j.v| && (status == NoRoom || status == Continue)
    requires matchCode == Common(j.v, ip0 + MINMATCH, m + MINMATCH, |j.v| - LASTLITERALS)
    requires status == NoRoom <==> MatchTooLong(b, token + 1 + (ip0 - anchor + 240) / 255 + (ip0 - anchor) + 2,
                                                matchCode)
    ensures MatchChosen(j, b, token, anchor, ip0, m, status, ip0 + MINMATCH + matchCode)
  {
    hide Common;
  }

  /** `_next_match`: offset and match length, shortened in fill mode when its bytes would not fit. */
  method EncodeMatch(dst: array<byte>, table: array<nat>, j: Job, token: nat, op0: nat, anchor: nat, ip0: nat, m: nat,
                     low: nat, filledIp: nat, directive: Directive, olimit: nat, ghost pre: Bytes, ghost known: nat,
                     ghost top: nat)
    returns (status: Status, op: nat, ip: nat)
    requires j.Valid() && j.s0 <= anchor <= ip0 && ip0 + MFLIMIT <= |j.v| && Fits(directive, dst, olimit, |j.v| - j.s0)
    requires j.IsMatch(ip0, m, low, known) && known >= MINMATCH && ip0 + known + LASTLITERALS <= |j.v|
    requires top + MFLIMIT <= |j.v| && top < ip0 + known && j.TableOk(table[..], top + 1 + j.Delta())
    requires filledIp == top || filledIp <= top <= ip0 || (directive == FillOutput && op0 + 11 > olimit)
    requires token <= SequencesBound(anchor - j.s0) && op0 == token + 1 + (ip0 - anchor + 240) / 255 + (ip0 - anchor)
    requires op0 <= dst.Length && token == |pre| && dst[..op0] == pre + EmitLiterals(j.v[anchor..ip0], 0)
    requires directive == LimitedOutput ==> op0 + 2 <= olimit
    requires directive == FillOutput ==> j.start == 0
    modifies dst, table
    ensures directive == NotLimited ==> status == Continue
    ensures status == NoRoom ==> directive == LimitedOutput && olimit < CompressBound(|j.v| - j.s0)
    ensures status == LastLiterals ==> directive == FillOutput && dst[..token] == pre
    ensures status != Continue ==> j.TableOk(table[..], top + 1 + j.Delta())
    ensures status == Continue ==>
      && ip0 + MINMATCH <= ip && ip + LASTLITERALS <= |j.v| && Agree(j.v, ip0, m, ip - ip0)
      && op <= dst.Length && dst[..op] == pre + EmitSequence(Sequence(j.v[anchor..ip0], ip0 - m, ip - ip0))
      && j.TableOk(table[..], Min(ip, top + 1) + j.Delta())
      && (directive != NotLimited ==> op + 1 + LASTLITERALS <= olimit)
      && (directive == FillOutput && ip - ip0 + LASTLITERALS < MFLIMIT ==> op + 9 <= olimit)
      && (filledIp < ip || (directive == FillOutput && op + 1 + LASTLITERALS == olimit))
    ensures directive != FillOutput ==>
      table[..] == old(table[..]) && MatchChosen(j, BudgetOf(directive, olimit), token, anchor, ip0, m, status, ip)
  {
    hide Agree, EmitSequence, EmitLiterals, SequencesBound, CompressBound, Job.TableOk, Job.IsMatch, MatchChosen,
         BudgetOf, Job.Valid, LenExt, Token;
    MatchFacts(j, ip0, m, low, known);
    if directive == FillOutput && op0 + 2 + 1 + MFLIMIT - MINMATCH > olimit {
      assert dst[..token] == dst[..op0][..token] == pre;
      return LastLiterals, token, ip0;
    }
    SequenceRoom(token, anchor - j.s0, ip0 - anchor, 0, |j.v| - j.s0);
    op := WriteOffset(dst, op0, ip0 - m);
    var matchCode;
    status, matchCode := SettleLength(table, j, ip0, m, low, op, filledIp, directive, olimit, known, top);
    ip := ip0 + MINMATCH + matchCode;
    SequenceRoom(token, anchor - j.s0, ip0 - anchor, matchCode, |j.v| - j.s0);
    if directive != FillOutput {
      MatchSettled(j, BudgetOf(directive, olimit), token, anchor, ip0, m, status, matchCode);
    }
    if status == Continue { op := WriteMatch(dst, token, op, ip0 - m, matchCode, pre, j.v[anchor..ip0]); }
  }

  /** The length of the match at `ip0`, whose offset ends at `op`, shortened in fill mode to the bytes available. */
  method SettleLength(table: array<nat>, j: Job, ip0: nat, m: nat, low: nat, op: nat, filledIp: nat,
                      directive: Directive, olimit: nat, ghost known: nat, ghost top: nat)
    returns (status: Status, matchCode: nat)
    requires j.Valid() && j.s0 <= ip0 && ip0 + MFLIMIT <= |j.v|
    requires j.IsMatch(ip0, m, low, known) && known >= MINMATCH && ip0 + known + LASTLITERALS <= |j.v|
    requires top + MFLIMIT <= |j.v| && top < ip0 + known && j.TableOk(table[..], top + 1 + j.Delta())
    requires filledIp == top || filledIp <= top <= ip0 || (directive == FillOutput && op + 9 > olimit)
    requires directive == FillOutput ==> j.start == 0 && op + 9 <= olimit
    modifies table
    ensures ip0 + MINMATCH + matchCode + LASTLITERALS <= |j.v|
    ensures status == Continue
      || (status == NoRoom && directive == LimitedOutput && op + (1 + LASTLITERALS) + (matchCode + 240) / 255 > olimit)
    ensures status == NoRoom ==> j.TableOk(table[..], top + 1 + j.Delta())
    ensures status == Continue ==>
      && Agree(j.v, ip0, m, MINMATCH + matchCode)
      && j.TableOk(table[..], Min(ip0 + MINMATCH + matchCode, top + 1) + j.Delta())
      && (directive != NotLimited ==> op + (1 + LASTLITERALS) + (matchCode + 240) / 255 <= olimit)
      && (directive == FillOutput && MINMATCH + matchCode + LASTLITERALS < MFLIMIT ==>
            op + (matchCode + 240) / 255 + 9 <= olimit)
      && (filledIp < ip0 + MINMATCH + matchCode
         || (directive == FillOutput && op + (matchCode + 240) / 255 + 1 + LASTLITERALS == olimit))
    ensures directive != FillOutput ==>
      && table[..] == old(table[..]) && matchCode == Common(j.v, ip0 + MINMATCH, m + MINMATCH, |j.v| - LASTLITERALS)
      && (status == NoRoom <==> MatchTooLong(BudgetOf(directive, olimit), op, matchCode))
  {
    hide Agree, Job.EntryOk, Common;
    matchCode := MatchLength(j, ip0, m, low, known);
    status := Continue;
    if directive != NotLimited && op + (1 + LASTLITERALS) + (matchCode + 240) / 255 > olimit {
      if directive == LimitedOutput { return NoRoom, matchCode; }
      ghost var full := matchCode;
      matchCode := ShortenMatch(table, j, ip0, matchCode, op, olimit, filledIp, top);
      AgreeShorter(j.v, ip0, m, MINMATCH + full, MINMATCH + matchCode);
    } else {
      TableLaterOrSame(j, table[..], top, known, ip0, matchCode);
    }
  }

  lemma TableLaterOrSame(j: Job, table: seq<nat>, top: nat, known: nat, ip0: nat, matchCode: nat)
    requires j.s0 <= j.start && j.TableOk(table, top + 1 + j.Delta()) && top < ip0 + known
    requires MINMATCH + matchCode >= known
    ensures j.TableOk(table, Min(ip0 + MINMATCH + matchCode, top + 1) + j.Delta())
  {
    hide Job.EntryOk;
  }

  /** Match description too long: reduce it, and remove the positions it no longer covers from the table. */
  method ShortenMatch(table: array<nat>, j: Job, ip0: nat, matchCode: nat, op: nat, olimit: nat, filledIp: nat,
                      ghost top: nat)
    returns (newMatchCode: nat)
    requires j.Valid() && j.start == 0 && top + MFLIMIT <= |j.v| && j.s0 <= ip0
    requires filledIp == top || filledIp <= top <= ip0
    requires j.TableOk(table[..], top + 1 + j.Delta())
    requires op + 9 <= olimit && op + (1 + LASTLITERALS) + (matchCode + 240) / 255 > olimit
    modifies table
    ensures ML_MASK <= newMatchCode < matchCode && (newMatchCode + 240) / 255 == olimit - op - 1 - LASTLITERALS
    ensures j.TableOk(table[..], Min(ip0 + MINMATCH + newMatchCode, top + 1) + j.Delta())
  {
    ReducedCode(olimit - op - 1 - LASTLITERALS, matchCode);
    newMatchCode := 15 - 1 + (olimit - op - 1 - LASTLITERALS) * 255;
    var ip := ip0 + MINMATCH + newMatchCode;
    if ip <= filledIp {
      ClearPositions(table, j, ip, filledIp);
    }
  }

  // ---------------------------------------------------------------- the last run

  /** The closing literals, cut in fill mode to what still fits. */
  method EncodeLastLiterals(dst: array<byte>, op0: nat, j: Job, anchor: nat, directive: Directive, olimit: nat)
    returns (ok: bool, op: nat, lastRun: nat)
    requires j.Valid() && j.s0 <= anchor <= |j.v| && Fits(directive, dst, olimit, |j.v| - j.s0)
    requires op0 <= SequencesBound(anchor - j.s0) && op0 <= dst.Length
    requires directive == FillOutput ==> op0 + 1 <= olimit
    modifies dst
    ensures anchor + lastRun <= |j.v|
    ensures ok ==> Appended(dst, op0, op, EmitLiterals(j.v[anchor..anchor + lastRun], 0))
    ensures ok ==> op == op0 + RunCost(lastRun)
    ensures ok && directive != NotLimited ==> op <= olimit
    ensures !ok ==> directive == LimitedOutput && olimit < CompressBound(|j.v| - j.s0)
    ensures directive != FillOutput ==>
      lastRun == |j.v| - anchor && (ok <==> directive == NotLimited || op0 + RunCost(lastRun) <= olimit)
    ensures directive == FillOutput ==> lastRun == Min(|j.v| - anchor, FillRun(olimit - op0))
  {
    hide EmitLiterals, FillRun, SequencesBound, CompressBound;
    LastRunRoom(op0, anchor - j.s0, |j.v| - anchor);
    ok, lastRun := LastRunLength(op0, |j.v| - anchor, directive, olimit);
    op := op0;
    if ok { op := WriteLastRun(dst, op0, j.v, anchor, lastRun); }
  }

  /** How many closing literals are written, if any at all. */
  method LastRunLength(op: nat, left: nat, directive: Directive, olimit: nat) returns (ok: bool, lastRun: nat)
    requires directive == FillOutput ==> op + 1 <= olimit
    ensures ok || (directive == LimitedOutput && op + RunCost(left) > olimit)
    ensures ok && directive != NotLimited ==> op + RunCost(lastRun) <= olimit
    ensures if directive == FillOutput then lastRun == Min(left, FillRun(olimit - op)) else lastRun == left
  {
    hide FillRun;
    lastRun := left;
    if directive == FillOutput { FillRunLargest(olimit - op, left); }
    if directive != NotLimited && op + lastRun + 1 + (lastRun + 255 - RUN_MASK) / 255 > olimit {
      if directive == LimitedOutput { return false, lastRun; }
      lastRun := CutRun(olimit - op);
      FillRunLargest(olimit - op, lastRun);
    }
    ok := true;
  }

  method CutRun(room: nat) returns (lastRun: nat)
    requires room >= 1
    ensures lastRun == FillRun(room)
  {
    lastRun := room - 1;
    lastRun := lastRun - (lastRun + 256 - RUN_MASK) / 256;
  }

  // ---------------------------------------------------------------- the whole block

  /** What has been written so far: sequences that expand to the input up to the anchor, within the bound
      and, once there is a match, far enough from the end of the input and of the destination. */
  ghost predicate Progress(j: Job, written: Bytes, seqs: seq<Sequence>, anchor: nat, directive: Directive,
                           olimit: nat) {
    && j.s0 <= anchor <= |j.v|
    && ValidSequences(seqs) && written == EmitSequences(seqs)
    && Expand(j.v[..j.s0], seqs) == Some(j.v[..anchor])
    && |written| <= SequencesBound(anchor - j.s0)
    && (directive == FillOutput ==> |written| + 1 <= olimit)
    && (|seqs| > 0 ==>
        var mlen := seqs[|seqs| - 1].mlen;
        && anchor + LASTLITERALS <= |j.v| && anchor - mlen + MFLIMIT <= |j.v|
        && (directive == FillOutput ==> |written| + 1 + LASTLITERALS <= olimit)
        && (directive == FillOutput && mlen + LASTLITERALS < MFLIMIT ==> |written| + 1 + MFLIMIT <= olimit + mlen))
  }

  /** One more sequence. */
  lemma ProgressNext(j: Job, written: Bytes, seqs: seq<Sequence>, anchor: nat, directive: Directive, olimit: nat,
                     ip0: nat, m: nat, ip: nat, now: Bytes)
    requires j.Valid() && Progress(j, written, seqs, anchor, directive, olimit)
    requires anchor <= ip0 && ip0 + MFLIMIT <= |j.v| && m < ip0 && ip0 - m <= DISTANCE_MAX
    requires ip0 + MINMATCH <= ip && ip + LASTLITERALS <= |j.v| && Agree(j.v, ip0, m, ip - ip0)
    requires now == written + EmitSequence(Sequence(j.v[anchor..ip0], ip0 - m, ip - ip0))
    requires directive == FillOutput ==> |now| + 1 + LASTLITERALS <= olimit
    requires directive == FillOutput && ip - ip0 + LASTLITERALS < MFLIMIT ==> |now| + 1 + MFLIMIT <= olimit + (ip - ip0)
    ensures Progress(j, now, seqs + [Sequence(j.v[anchor..ip0], ip0 - m, ip - ip0)], ip, directive, olimit)
  {
    hide Agree, Expand, EmitSequences, EmitSequence, CopyMatch;
    var s := Sequence(j.v[anchor..ip0], ip0 - m, ip - ip0);
    EmitSequencesSnoc(seqs, s);
    assert j.v[..anchor] + s.lits == j.v[..ip0];
    ExpandSnoc(j.v[..j.s0], seqs, s);
    MatchDecodes(j.v, ip0, m, ip - ip0);
    assert j.v[..ip0 + (ip - ip0)] == j.v[..ip];
    SequenceCost(|written|, anchor - j.s0, ip0 - anchor, ip - ip0 - MINMATCH);
    SequenceLength(s);
  }

  lemma SequenceLength(s: Sequence)
    requires ValidSequence(s)
    ensures |EmitSequence(s)| == 1 + (|s.lits| + 240) / 255 + |s.lits| + 2 + (s.mlen - MINMATCH + 240) / 255
  {
  }

  /** Closing the block: the result is a block of the format for the input consumed. */
  lemma ProgressEnds(j: Job, written: Bytes, seqs: seq<Sequence>, anchor: nat, directive: Directive, olimit: nat,
                     lastRun: nat, result: Bytes)
    requires j.Valid() && Progress(j, written, seqs, anchor, directive, olimit)
    requires anchor + lastRun <= |j.v| && result == written + EmitLiterals(j.v[anchor..anchor + lastRun], 0)
    requires directive != FillOutput ==> lastRun == |j.v| - anchor
    requires directive == FillOutput ==> lastRun == Min(|j.v| - anchor, FillRun(olimit - |written|))
    ensures Encodes(result, j.v[..j.s0], j.v[j.s0..anchor + lastRun])
  {
    hide EmitSequences, EmitLiterals, Expand, Encodes;
    var last := j.v[anchor..anchor + lastRun];
    assert EmitBlock(Block(seqs, last), 0) == result;
    assert j.v[..anchor] + last == j.v[..j.s0] + j.v[j.s0..anchor + lastRun];
    EncodesOfEmit(seqs, last, j.v[..j.s0], j.v[j.s0..anchor + lastRun]);
  }

  /** The choice of the next sequence is made up to the point reached. */
  ghost predicate ChosenSoFar(j: Job, table0: seq<nat>, b: Budget, acceleration: nat, token: nat, anchor: nat, ip0: nat,
                              at: Option<nat>, status: Status, ip: nat, m: nat, table: seq<nat>)
    requires j.s0 <= j.start && |table0| > 0 && acceleration >= 1 && anchor <= ip0
    requires if at.Some? then at.value < ip0 && ip0 + MFLIMIT <= |j.v| else ip0 + MFLIMIT - 1 <= |j.v|
  {
    var c := Choose(j, table0, b, acceleration, token, anchor, ip0, at);
    match status
    case NoRoom => c == Stop(true, table)
    case LastLiterals => c == Stop(false, table)
    case Continue =>
      && anchor <= ip && m < ip && ip + MFLIMIT <= |j.v|
      && c == ChooseMatch(j, table, b, token, anchor, ip, m)
  }

  /** Find a match, catch up, encode the literals before it. */
  method FindSequence(dst: array<byte>, table: array<nat>, j: Job, op0: nat, anchor: nat, ip0: nat, forwardH: nat,
                      directive: Directive, olimit: nat, acceleration: nat)
    returns (status: Status, op: nat, ip: nat, m: nat, low: nat, filledIp: nat)
    requires j.Valid() && j.s0 <= anchor <= ip0 && ip0 + MFLIMIT - 1 <= |j.v| && acceleration >= 1
    requires Fits(directive, dst, olimit, |j.v| - j.s0) && op0 <= SequencesBound(anchor - j.s0) && op0 <= dst.Length
    requires j.TableOk(table[..], ip0 + j.Delta()) && forwardH == j.HashAt(ip0, table.Length)
    modifies dst, table
    ensures status == Continue ==>
      && anchor <= ip <= filledIp && filledIp + MFLIMIT <= |j.v|
      && j.IsMatch(ip, m, low, MINMATCH + (filledIp - ip)) && j.TableOk(table[..], filledIp + 1 + j.Delta())
      && Appended(dst, op0, op, EmitLiterals(j.v[anchor..ip], 0))
      && op == op0 + 1 + (ip - anchor + 240) / 255 + (ip - anchor)
      && (directive == LimitedOutput ==> op + 2 <= olimit)
    ensures status != Continue ==>
      op == op0 && dst[..op0] == old(dst[..op0]) && j.TableOk(table[..], |j.v| - MFLIMIT + 1 + j.Delta())
    ensures status == NoRoom ==> directive == LimitedOutput && olimit < CompressBound(|j.v| - j.s0)
    ensures directive != FillOutput ==>
      ChosenSoFar(j, old(table[..]), BudgetOf(directive, olimit), acceleration, op0, anchor, ip0, None, status, ip, m,
                  table[..])
  {
    hide Agree, Job.EntryOk, EmitLiterals, Search, ChooseMatch, Back;
    op := op0;
    var found;
    found, ip, m, low := FindMatch(table, j, ip0, forwardH, acceleration);
    filledIp := ip;
    if !found { return LastLiterals, op, ip, m, low, filledIp; }
    ip, m := CatchUp(j, anchor, ip, m, low);
    status, op := EncodeLiterals(dst, op0, j, anchor, ip, directive, olimit);
    if status != Continue {
      TableLater(j, table[..], filledIp + 1 + j.Delta(), |j.v| - MFLIMIT + 1 + j.Delta());
    }
  }

  /** After a match: fill the table, and test whether another match starts right there. */
  method TestNext(table: array<nat>, j: Job, ip: nat) returns (atMatch: bool, m: nat, low: nat)
    requires j.Valid() && j.s0 + MINMATCH <= ip && ip + MFLIMIT <= |j.v| && j.TableOk(table[..], ip + j.Delta())
    modifies table
    ensures j.TableOk(table[..], ip + 1 + j.Delta())
    ensures atMatch ==> j.IsMatch(ip, m, low, MINMATCH)
    ensures AfterMatch(j, old(table[..]), ip) == (if atMatch then Some(m) else None, table[..])
  {
    hide Agree, Taken, Job.EntryOk;
    PutBefore(table, j, ip - 2, ip);
    var h := j.HashAt(ip, table.Length);
    var current := ip + j.Delta();
    var matchIndex := j.Candidate(table[h], h);
    assert j.EntryOk(j.Candidate(table[..][h], h), h, table.Length, current);
    Put(table, j, ip, h, current);
    atMatch, m, low := TestCandidate(j, matchIndex, ip, h, table.Length);
  }

  method PutBefore(table: array<nat>, j: Job, p: nat, ghost next: nat)
    requires j.Valid() && j.TableOk(table[..], next + j.Delta()) && j.s0 <= p < next && p + MFLIMIT <= |j.v|
    modifies table
    ensures j.TableOk(table[..], next + j.Delta())
    ensures table[..] == old(table[..])[j.HashAt(p, table.Length) := p + j.Delta()]
  {
    var h := j.HashAt(p, table.Length);
    table[h] := p + j.Delta();
  }

  predicate TooLarge(j: Job) {
    j.tableType == ByU16 && |j.v| >= LIMIT_64K
  }

  /** The block that is written, if it fits, and the table left behind: the result as a function of the input, the table
      and the limit. */
  function Planned(j: Job, table: seq<nat>, b: Budget, acceleration: nat): (r: (Option<Block>, seq<nat>))
    requires j.Valid() && |table| > 0 && acceleration >= 1
    ensures |r.1| == |table|
  {
    var run := if |j.v| - j.s0 >= MFLIMIT + 1 then AllSequences(j, table, b, acceleration)
      else Run(false, [], table, 0);
    var anchor := j.s0 + Covered(run.seqs);
    (if run.noRoom || (b.Limited? && run.size + RunCost(|j.v| - anchor) > b.olimit) then None
     else Some(Block(run.seqs, j.v[anchor..])), run.table)
  }

  /** The bytes at `out` are the planned block, or nothing. */
  ghost predicate AsPlanned(plan: Option<Block>, out: Bytes) {
    match plan
    case None => out == []
    case Some(block) => ValidSequences(block.seqs) && out == EmitBlock(block, 0)
  }

  lemma {:induction false} ExpandLength(out: Bytes, seqs: seq<Sequence>)
    requires Expand(out, seqs).Some?
    ensures |Expand(out, seqs).value| == |out| + Covered(seqs)
    decreases |seqs|
  {
    if |seqs| > 0 {
      var s := seqs[0];
      ExpandLength(CopyMatch(out + s.lits, s.offset, s.mlen), seqs[1..]);
    }
  }

  lemma PlanFails(j: Job, table: seq<nat>, b: Budget, acceleration: nat, nothing: Bytes)
    requires j.Valid() && j.s0 + MFLIMIT + 1 <= |j.v| && |table| > 0 && acceleration >= 1 && |nothing| == 0
    requires AllSequences(j, table, b, acceleration).noRoom
    ensures Planned(j, table, b, acceleration).1 == AllSequences(j, table, b, acceleration).table
    ensures AsPlanned(Planned(j, table, b, acceleration).0, nothing)
  {
    hide AllSequences;
  }

  /** The closing run is written, or found not to fit, as planned. */
  lemma PlanEnds(j: Job, table0: seq<nat>, b: Budget, acceleration: nat, seqs: seq<Sequence>, table: seq<nat>,
                 written: Bytes, anchor: nat, directive: Directive, olimit: nat, result: Bytes)
    requires j.Valid() && |table0| > 0 && acceleration >= 1 && directive != FillOutput
    requires b == BudgetOf(directive, olimit)
    requires Progress(j, written, seqs, anchor, directive, olimit)
    requires
      if j.s0 + MFLIMIT + 1 <= |j.v| then AllSequences(j, table0, b, acceleration) == Run(false, seqs, table, |written|)
      else seqs == [] && table == table0
    requires var fits := directive == NotLimited || |written| + RunCost(|j.v| - anchor) <= olimit;
      result == if fits then written + EmitLiterals(j.v[anchor..], 0) else []
    ensures Planned(j, table0, b, acceleration).1 == table && AsPlanned(Planned(j, table0, b, acceleration).0, result)
  {
    hide AllSequences, EmitLiterals, Expand, SequencesBound, RunCost;
    ExpandLength(j.v[..j.s0], seqs);
    if |seqs| == 0 { assert written == []; }
    hide EmitSequences;
    var block := Block(seqs, j.v[anchor..]);
    assert EmitBlock(block, 0) == written + EmitLiterals(j.v[anchor..], 0);
  }

  /**
    `LZ4_compress_generic_validated`. For every input, every hash function, every acceleration and every
    admissible table, what is written is a block of the format for the input consumed, decodable after the
    dictionary. Unlimited mode never writes beyond the compress bound, limited mode fails rather than
    exceed its budget, and fill mode consumes what fits.
  */
  method CompressGenericValidated(table: array<nat>, j: Job, dst: array<byte>, maxOutputSize: nat, directive: Directive,
                                  acceleration: nat)
    returns (result: nat, consumed: nat)
    requires TooLarge(j) || j.Valid()
    requires j.s0 < |j.v| && j.s0 <= j.start && acceleration >= 1
    requires j.TableOk(table[..], Max(j.start, 1))
    requires Fits(directive, dst, maxOutputSize, |j.v| - j.s0)
    requires directive == FillOutput ==> j.start == 0
    modifies dst, table
    ensures result <= dst.Length && j.s0 + consumed <= |j.v|
    ensures directive != FillOutput ==> consumed == |j.v| - j.s0
    ensures result > 0 ==> Encodes(dst[..result], j.v[..j.s0], j.v[j.s0..j.s0 + consumed])
    ensures directive == NotLimited ==> result <= CompressBound(|j.v| - j.s0)
    ensures directive != NotLimited ==> result <= maxOutputSize
    ensures TooLarge(j) ==> result == 0
    ensures result == 0 ==>
      || TooLarge(j)
      || (directive == FillOutput && maxOutputSize == 0)
      || (directive == LimitedOutput && maxOutputSize < CompressBound(|j.v| - j.s0))
    ensures j.TableOk(table[..], Max(Max(j.start, 1), |j.v| - MFLIMIT + 1 + j.Delta()))
    ensures directive != FillOutput && !TooLarge(j) ==>
      var (plan, after) := Planned(j, old(table[..]), BudgetOf(directive, maxOutputSize), acceleration);
      table[..] == after && AsPlanned(plan, dst[..result])
  {
    hide Job.EntryOk, Progress, Encodes, AllSequences, AsPlanned, Planned;
    consumed := |j.v| - j.s0;
    ghost var last := Max(Max(j.start, 1), |j.v| - MFLIMIT + 1 + j.Delta());
    if TooLarge(j) || (directive == FillOutput && maxOutputSize < 1) {
      TableLater(j, table[..], Max(j.start, 1), last);
      return 0, consumed;
    }
    var olimit := maxOutputSize;
    var op, anchor, noRoom := 0, j.s0, false;
    ghost var seqs: seq<Sequence> := [];
    ProgressStarts(j, dst[..0], directive, olimit);
    if |j.v| - j.s0 >= MFLIMIT + 1 {
      TableLater(j, table[..], Max(j.start, 1), j.start + 1);
      noRoom, op, anchor, seqs := EncodeSequences(table, j, dst, olimit, directive, acceleration);
      if noRoom {
        PlanFails(j, old(table[..]), BudgetOf(directive, olimit), acceleration, dst[..0]);
        return 0, consumed;
      }
    } else {
      TableLater(j, table[..], Max(j.start, 1), last);
    }
    result, consumed := Close(dst, op, j, anchor, directive, olimit, seqs, old(table[..]), table[..], acceleration);
  }

  /** `_last_literals`. */
  method Close(dst: array<byte>, op: nat, j: Job, anchor: nat, directive: Directive, olimit: nat,
               ghost seqs: seq<Sequence>, ghost table0: seq<nat>, ghost table: seq<nat>, ghost acceleration: nat)
    returns (result: nat, consumed: nat)
    requires j.Valid() && j.s0 < |j.v| && |table0| > 0 && acceleration >= 1
    requires Fits(directive, dst, olimit, |j.v| - j.s0)
    requires op <= dst.Length && Progress(j, dst[..op], seqs, anchor, directive, olimit)
    requires directive != FillOutput ==>
      if j.s0 + MFLIMIT + 1 <= |j.v| then AllSequences(j, table0, BudgetOf(directive, olimit),
                                                       acceleration) == Run(false, seqs, table, op)
      else seqs == [] && table == table0
    modifies dst
    ensures result <= dst.Length && j.s0 + consumed <= |j.v|
    ensures directive != FillOutput ==> consumed == |j.v| - j.s0
    ensures result > 0 ==> Encodes(dst[..result], j.v[..j.s0], j.v[j.s0..j.s0 + consumed])
    ensures if directive == NotLimited then result <= CompressBound(|j.v| - j.s0) else result <= olimit
    ensures result == 0 ==> directive == LimitedOutput && olimit < CompressBound(|j.v| - j.s0)
    ensures directive != FillOutput ==>
      var plan := Planned(j, table0, BudgetOf(directive, olimit), acceleration);
      table == plan.1 && AsPlanned(plan.0, dst[..result])
  {
    hide EmitLiterals, Progress, Encodes, AllSequences, AsPlanned, Planned, FillRun;
    ProgressFacts(j, dst[..op], seqs, anchor, directive, olimit);
    ghost var written := dst[..op];
    consumed := |j.v| - j.s0;
    var ok, lastRun;
    ok, result, lastRun := EncodeLastLiterals(dst, op, j, anchor, directive, olimit);
    if directive != FillOutput {
      assert j.v[anchor..anchor + lastRun] == j.v[anchor..];
      PlanEnds(j, table0, BudgetOf(directive, olimit), acceleration, seqs, table, written, anchor, directive, olimit,
               if ok then dst[..result] else dst[..0]);
    }
    if !ok { return 0, consumed; }
    ProgressEnds(j, written, seqs, anchor, directive, olimit, lastRun, dst[..result]);
    LastRunRoom(op, anchor - j.s0, lastRun);
    consumed := anchor + lastRun - j.s0;
  }

  lemma ProgressStarts(j: Job, written: Bytes, directive: Directive, olimit: nat)
    requires j.Valid() && written == [] && (directive == FillOutput ==> olimit >= 1)
    ensures Progress(j, written, [], j.s0, directive, olimit)
  {
  }

  lemma ProgressFacts(j: Job, written: Bytes, seqs: seq<Sequence>, anchor: nat, directive: Directive, olimit: nat)
    requires Progress(j, written, seqs, anchor, directive, olimit)
    ensures j.s0 <= anchor <= |j.v| && |written| <= SequencesBound(anchor - j.s0)
    ensures directive == FillOutput ==> |written| + 1 <= olimit
  {
  }

  /** Where the main loop stands between two sequences: searching from `ip`, or (`atMatch`) with a match
      already found right at the anchor and its token already written. */
  ghost predicate Between(j: Job, out: Bytes, table: seq<nat>, token: nat, op: nat, anchor: nat, ip: nat, forwardH: nat,
                          atMatch: bool, m: nat, low: nat, filledIp: nat, directive: Directive, olimit: nat)
    requires j.Valid() && |table| > 0
  {
    && j.s0 <= anchor <= ip && anchor + LASTLITERALS <= |j.v| && op <= |out|
    && if atMatch then
         && token + 1 == op && out[token] == 0 && ip == anchor && ip + MFLIMIT <= |j.v|
         && j.IsMatch(ip, m, low, MINMATCH) && j.TableOk(table, ip + 1 + j.Delta())
         && (directive == LimitedOutput ==> op + 2 <= olimit)
         && (filledIp <= ip || (directive == FillOutput && op + 11 > olimit))
       else
         && token == op && ip + MFLIMIT - 1 <= |j.v| && forwardH == j.HashAt(ip, |table|)
         && j.TableOk(table, ip + j.Delta())
  }

  /** A match is at hand at `ip`, its literals are written, and `top` is the last position put in the table. */
  ghost predicate Ready(j: Job, out: Bytes, table: seq<nat>, token: nat, op: nat, anchor: nat, ip: nat, m: nat,
                        low: nat, filledIp: nat, top: nat, directive: Directive, olimit: nat)
    requires j.Valid()
  {
    && j.s0 <= anchor <= ip <= top && top + MFLIMIT <= |j.v| && token <= op <= |out|
    && j.IsMatch(ip, m, low, MINMATCH + (top - ip)) && j.TableOk(table, top + 1 + j.Delta())
    && (filledIp == top || filledIp <= top <= ip || (directive == FillOutput && op + 11 > olimit))
    && op == token + 1 + (ip - anchor + 240) / 255 + (ip - anchor)
    && out[..op] == out[..token] + EmitLiterals(j.v[anchor..ip], 0)
    && (directive == LimitedOutput ==> op + 2 <= olimit)
  }

  /** Where the next sequence may be looked for. */
  predicate At(j: Job, ip: nat, atMatch: bool, m: nat) {
    if atMatch then m < ip && ip + MFLIMIT <= |j.v| else ip + MFLIMIT - 1 <= |j.v|
  }

  /** The search, unless a match is at hand already, and the literals before the match. */
  method Prepare(table: array<nat>, j: Job, dst: array<byte>, token: nat, op0: nat, anchor: nat, ip0: nat,
                 forwardH: nat, atMatch: bool, m0: nat, low0: nat, filledIp0: nat, directive: Directive, olimit: nat,
                 acceleration: nat)
    returns (status: Status, op: nat, ip: nat, m: nat, low: nat, filledIp: nat, ghost top: nat)
    requires j.Valid() && j.s0 + MFLIMIT + 1 <= |j.v| && acceleration >= 1 && Fits(directive, dst, olimit, |j.v| - j.s0)
    requires table.Length > 0 && j.s0 <= anchor && token <= SequencesBound(anchor - j.s0)
    requires Between(j, dst[..], table[..], token, op0, anchor, ip0, forwardH, atMatch, m0, low0, filledIp0, directive,
                     olimit)
    modifies dst, table
    ensures status == NoRoom ==> directive == LimitedOutput && olimit < CompressBound(|j.v| - j.s0)
    ensures token <= dst.Length && dst[..token] == old(dst[..token])
    ensures status == Continue ==>
      Ready(j, dst[..], table[..], token, op, anchor, ip, m, low, filledIp, top, directive, olimit)
    ensures status != Continue ==> j.TableOk(table[..], |j.v| - MFLIMIT + 1 + j.Delta())
    ensures directive != FillOutput ==>
      && At(j, ip0, atMatch, m0) && anchor <= ip0
      && ChosenSoFar(j, old(table[..]), BudgetOf(directive, olimit), acceleration, token, anchor, ip0,
                     if atMatch then Some(m0) else None, status, ip, m, table[..])
  {
    hide Agree, Job.EntryOk, EmitLiterals, Search, ChooseMatch, Back;
    op, ip, m, low, filledIp, status, top := op0, ip0, m0, low0, filledIp0, Continue, ip0;
    ghost var pre := dst[..token];
    if !atMatch {
      status, op, ip, m, low, filledIp := FindSequence(dst, table, j, op, anchor, ip, forwardH, directive, olimit,
                                                       acceleration);
      top := filledIp;
      if status == Continue {
        assert dst[..token] == dst[..op][..token] == pre;
        assert dst[..][..op] == dst[..op] && dst[..][..token] == dst[..token];
      }
    } else {
      EmptyRun(pre, dst[..op], j.v[anchor..ip]);
      assert dst[..][..op] == dst[..op] && dst[..][..token] == dst[..token];
    }
  }

  /** Where one sequence later the loop stands, before the table is filled for the next one. */
  ghost predicate Finished(j: Job, out: Bytes, table: seq<nat>, op: nat, anchor: nat, ip: nat, filledIp: nat,
                           directive: Directive, olimit: nat, seqs: seq<Sequence>)
    requires j.Valid()
  {
    && anchor + MINMATCH <= ip && j.s0 + MINMATCH <= ip && ip + LASTLITERALS <= |j.v| && op <= |out|
    && Progress(j, out[..op], seqs, ip, directive, olimit)
    && j.TableOk(table, ip + j.Delta())
    && (directive != NotLimited ==> op + 1 + LASTLITERALS <= olimit)
    && (filledIp < ip || (directive == FillOutput && op + 1 + LASTLITERALS == olimit))
  }

  /** The match of a prepared sequence. */
  method Finish(table: array<nat>, j: Job, dst: array<byte>, token: nat, op0: nat, anchor: nat, ip0: nat, m: nat,
                low: nat, filledIp: nat, directive: Directive, olimit: nat, ghost top: nat, ghost seqs: seq<Sequence>)
    returns (status: Status, op: nat, ip: nat, ghost s: Sequence)
    requires j.Valid() && Fits(directive, dst, olimit, |j.v| - j.s0) && (directive == FillOutput ==> j.start == 0)
    requires Ready(j, dst[..], table[..], token, op0, anchor, ip0, m, low, filledIp, top, directive, olimit)
    requires Progress(j, dst[..token], seqs, anchor, directive, olimit)
    modifies dst, table
    ensures status == NoRoom ==> directive == LimitedOutput && olimit < CompressBound(|j.v| - j.s0)
    ensures token <= dst.Length && (status == LastLiterals ==> dst[..token] == old(dst[..token]))
    ensures j.TableOk(table[..], |j.v| - MFLIMIT + 1 + j.Delta())
    ensures status == Continue ==>
      Finished(j, dst[..], table[..], op, anchor, ip, filledIp, directive, olimit, seqs + [s])
    ensures directive != FillOutput ==>
      && anchor <= ip0
      && m < ip0
      && ip0 + MFLIMIT <= |j.v|
      && (status == NoRoom || status == Continue)
      && table[..] == old(table[..])
      && ChooseMatch(j, table[..], BudgetOf(directive, olimit), token, anchor, ip0, m)
         == if status == NoRoom then Stop(true, table[..]) else One(s, table[..])
    ensures status == Continue ==>
      && ip == anchor + |s.lits| + s.mlen && s.mlen >= MINMATCH
      && op == token + WrittenSize(s)
  {
    hide Agree, Job.TableOk, EmitSequence, EmitLiterals, Progress, ChooseMatch, Job.IsMatch, Fits, SequencesBound,
         Finished, WrittenSize;
    MatchFacts(j, ip0, m, low, MINMATCH + (top - ip0));
    ghost var pre := dst[..token];
    ProgressFacts(j, pre, seqs, anchor, directive, olimit);
    s := Sequence([], 0, 0);
    assert dst[..][..op0] == dst[..op0] && dst[..][..token] == pre;
    status, op, ip := EncodeMatch(dst, table, j, token, op0, anchor, ip0, m, low, filledIp, directive, olimit, pre,
                                  MINMATCH + (top - ip0), top);
    if status != Continue {
      TableLater(j, table[..], top + 1 + j.Delta(), |j.v| - MFLIMIT + 1 + j.Delta());
      return;
    }
    s := Sequence(j.v[anchor..ip0], ip0 - m, ip - ip0);
    assert dst[..][..op] == dst[..op];
    SequenceFinished(j, pre, seqs, anchor, directive, olimit, ip0, m, ip, dst[..], op, table[..], top, filledIp);
  }

  /** After a sequence that has been written for a match, all is set for the next one. */
  lemma SequenceFinished(j: Job, pre: Bytes, seqs: seq<Sequence>, anchor: nat, directive: Directive, olimit: nat,
                         ip0: nat, m: nat, ip: nat, out: Bytes, op: nat, table: seq<nat>, top: nat, filledIp: nat)
    requires j.Valid() && Progress(j, pre, seqs, anchor, directive, olimit)
    requires anchor <= ip0 <= top && ip0 + MFLIMIT <= |j.v| && top + MFLIMIT <= |j.v|
    requires m < ip0 && ip0 - m <= DISTANCE_MAX
    requires ip0 + MINMATCH <= ip && ip + LASTLITERALS <= |j.v| && Agree(j.v, ip0, m, ip - ip0) && op <= |out|
    requires out[..op] == pre + EmitSequence(Sequence(j.v[anchor..ip0], ip0 - m, ip - ip0))
    requires j.TableOk(table, Min(ip, top + 1) + j.Delta())
    requires directive != NotLimited ==> op + 1 + LASTLITERALS <= olimit
    requires directive == FillOutput && ip - ip0 + LASTLITERALS < MFLIMIT ==> op + 9 <= olimit
    requires filledIp < ip || (directive == FillOutput && op + 1 + LASTLITERALS == olimit)
    ensures var s := Sequence(j.v[anchor..ip0], ip0 - m, ip - ip0);
      && Finished(j, out, table, op, anchor, ip, filledIp, directive, olimit, seqs + [s])
      && op == |pre| + WrittenSize(s)
    ensures j.TableOk(table, |j.v| - MFLIMIT + 1 + j.Delta())
  {
    hide Agree, Job.TableOk, EmitSequence, EmitLiterals, Progress, SequencesBound, WrittenSize, Job.Valid, Finished;
    ProgressFacts(j, pre, seqs, anchor, directive, olimit);
    SizeWritten(Sequence(j.v[anchor..ip0], ip0 - m, ip - ip0));
    assert |out[..op]| == op;
    ProgressNext(j, pre, seqs, anchor, directive, olimit, ip0, m, ip, out[..op]);
    TablesLater(j, table, ip, top);
    NowFinished(j, out, table, op, anchor, ip, filledIp, directive, olimit,
                seqs + [Sequence(j.v[anchor..ip0], ip0 - m, ip - ip0)]);
  }

  lemma NowFinished(j: Job, out: Bytes, table: seq<nat>, op: nat, anchor: nat, ip: nat, filledIp: nat,
                    directive: Directive, olimit: nat, seqs: seq<Sequence>)
    requires j.Valid() && op <= |out| && Progress(j, out[..op], seqs, ip, directive, olimit)
    requires anchor + MINMATCH <= ip && j.s0 + MINMATCH <= ip && ip + LASTLITERALS <= |j.v|
    requires j.TableOk(table, ip + j.Delta()) && (directive != NotLimited ==> op + 1 + LASTLITERALS <= olimit)
    requires filledIp < ip || (directive == FillOutput && op + 1 + LASTLITERALS == olimit)
    ensures Finished(j, out, table, op, anchor, ip, filledIp, directive, olimit, seqs)
  {
  }

  lemma SizeWritten(s: Sequence)
    requires ValidSequence(s)
    ensures |EmitSequence(s)| == WrittenSize(s)
  {
    SequenceLength(s);
  }

  lemma TablesLater(j: Job, table: seq<nat>, ip: nat, top: nat)
    requires j.Valid() && j.TableOk(table, Min(ip, top + 1) + j.Delta()) && top + MFLIMIT <= |j.v|
    ensures j.TableOk(table, |j.v| - MFLIMIT + 1 + j.Delta()) && j.TableOk(table, ip + j.Delta())
  {
    hide Job.TableOk, Job.EntryOk;
    TableLater(j, table, Min(ip, top + 1) + j.Delta(), |j.v| - MFLIMIT + 1 + j.Delta());
    TableLater(j, table, Min(ip, top + 1) + j.Delta(), ip + j.Delta());
  }

  /** One sequence: the search unless a match is at hand, its literals, and its match. */
  method EncodeOne(table: array<nat>, j: Job, dst: array<byte>, token: nat, op0: nat, anchor: nat, ip0: nat,
                   forwardH: nat, atMatch: bool, m0: nat, low0: nat, filledIp0: nat, directive: Directive, olimit: nat,
                   acceleration: nat, ghost seqs: seq<Sequence>)
    returns (status: Status, op: nat, ip: nat, filledIp: nat, ghost s: Sequence)
    requires j.Valid() && j.s0 + MFLIMIT + 1 <= |j.v| && acceleration >= 1 && Fits(directive, dst, olimit, |j.v| - j.s0)
    requires directive == FillOutput ==> j.start == 0
    requires table.Length > 0
    requires Between(j, dst[..], table[..], token, op0, anchor, ip0, forwardH, atMatch, m0, low0, filledIp0, directive,
                     olimit)
    requires Progress(j, dst[..token], seqs, anchor, directive, olimit)
    modifies dst, table
    ensures status == NoRoom ==> directive == LimitedOutput && olimit < CompressBound(|j.v| - j.s0)
    ensures token <= dst.Length && (status == LastLiterals ==> dst[..token] == old(dst[..token]))
    ensures j.TableOk(table[..], |j.v| - MFLIMIT + 1 + j.Delta())
    ensures status == Continue ==>
      Finished(j, dst[..], table[..], op, anchor, ip, filledIp, directive, olimit, seqs + [s])
    ensures status == Continue ==>
      && ip == anchor + |s.lits| + s.mlen && s.mlen >= MINMATCH
      && op == token + WrittenSize(s)
    ensures directive != FillOutput ==>
      && At(j, ip0, atMatch, m0) && anchor <= ip0
      && Choose(j, old(table[..]), BudgetOf(directive, olimit), acceleration, token, anchor, ip0,
                if atMatch then Some(m0) else None)
         == if status == Continue then One(s, table[..]) else Stop(status == NoRoom, table[..])
  {
    hide Agree, Job.EntryOk, EmitSequence, EmitLiterals, Progress, Finished, Choose, ChooseMatch, Search;
    ghost var pre := dst[..token];
    ProgressFacts(j, pre, seqs, anchor, directive, olimit);
    hide Between, Fits, Ready, Job.TableOk;
    var m, low;
    ghost var top;
    s := Sequence([], 0, 0);
    status, op, ip, m, low, filledIp, top := Prepare(table, j, dst, token, op0, anchor, ip0, forwardH, atMatch, m0,
                                                     low0, filledIp0,
                                                     directive, olimit, acceleration);
    if status == Continue {
      status, op, ip, s := Finish(table, j, dst, token, op, anchor, ip, m, low, filledIp, directive, olimit, top, seqs);
    }
  }

  /** What has been written and what is still to be chosen together are the choice made from the start. */
  ghost predicate SoFar(j: Job, table0: seq<nat>, b: Budget, acceleration: nat, seqs: seq<Sequence>, table: seq<nat>,
                        token: nat, anchor: nat, ip: nat, at: Option<nat>)
    requires j.Valid() && j.s0 + MFLIMIT <= |j.v| && |table0| > 0 && acceleration >= 1
  {
    && |table| > 0 && anchor <= ip && At(j, ip, at.Some?, if at.Some? then at.value else 0)
    && var rest := Sequences(j, table, b, acceleration, token, anchor, ip, at);
    AllSequences(j, table0, b, acceleration) == Run(rest.noRoom, seqs + rest.seqs, rest.table, rest.size)
  }

  /** The sequences of the whole block; its first position is only put into the table. */
  function AllSequences(j: Job, table: seq<nat>, b: Budget, acceleration: nat): (r: Run)
    requires j.Valid() && j.s0 + MFLIMIT <= |j.v| && |table| > 0 && acceleration >= 1
    ensures |r.table| == |table| && j.s0 + Covered(r.seqs) <= |j.v|
  {
    Sequences(j, table[j.HashAt(j.s0, |table|) := j.start], b, acceleration, 0, j.s0, j.s0 + 1, None)
  }

  lemma SoFarStarts(j: Job, table0: seq<nat>, b: Budget, acceleration: nat)
    requires j.Valid() && j.s0 + MFLIMIT <= |j.v| && |table0| > 0 && acceleration >= 1
    ensures SoFar(j, table0, b, acceleration, [], table0[j.HashAt(j.s0, |table0|) := j.start], 0, j.s0, j.s0 + 1, None)
  {
    hide Sequences;
    var all := AllSequences(j, table0, b, acceleration);
    assert [] + all.seqs == all.seqs;
  }

  /** One sequence further: the choice ends with it, or goes on behind it. */
  lemma SoFarNext(j: Job, table0: seq<nat>, b: Budget, acceleration: nat, seqs: seq<Sequence>, table: seq<nat>,
                  token: nat, anchor: nat, ip: nat, at: Option<nat>, c: Chosen)
    requires j.Valid() && j.s0 + MFLIMIT <= |j.v| && |table0| > 0 && acceleration >= 1
    requires SoFar(j, table0, b, acceleration, seqs, table, token, anchor, ip, at)
    requires c == Choose(j, table, b, acceleration, token, anchor, ip, at)
    ensures c.Stop? ==> AllSequences(j, table0, b, acceleration) == Run(c.noRoom, seqs, c.table, token)
    ensures c.One? ==>
      var end := anchor + |c.s.lits| + c.s.mlen;
      var token' := token + WrittenSize(c.s);
      if end + MFLIMIT > |j.v| then
        AllSequences(j, table0, b, acceleration) == Run(false, seqs + [c.s], c.table, token')
      else
        var (at', t') := AfterMatch(j, c.table, end);
        SoFar(j, table0, b, acceleration, seqs + [c.s], t', token', end, if at'.Some? then end else end + 1, at')
  {
    hide Choose, AfterMatch, AllSequences;
    if c.Stop? {
      assert seqs + [] == seqs;
    } else {
      var rest := Sequences(j, table, b, acceleration, token, anchor, ip, at);
      assert seqs + rest.seqs == (seqs + [c.s]) + rest.seqs[1..];
    }
  }

  /** The main loop: sequences, as long as there are matches and room for them. */
  method EncodeSequences(table: array<nat>, j: Job, dst: array<byte>, olimit: nat, directive: Directive,
                         acceleration: nat)
    returns (noRoom: bool, op: nat, anchor: nat, ghost seqs: seq<Sequence>)
    requires j.Valid() && j.s0 + MFLIMIT + 1 <= |j.v| && acceleration >= 1
    requires j.TableOk(table[..], j.start + 1) && Fits(directive, dst, olimit, |j.v| - j.s0)
    requires directive == FillOutput ==> j.start == 0 && olimit >= 1
    modifies dst, table
    ensures noRoom ==> directive == LimitedOutput && olimit < CompressBound(|j.v| - j.s0)
    ensures !noRoom ==> op <= dst.Length && Progress(j, dst[..op], seqs, anchor, directive, olimit)
    ensures j.TableOk(table[..], |j.v| - MFLIMIT + 1 + j.Delta())
    ensures directive != FillOutput ==>
      AllSequences(j, old(table[..]), BudgetOf(directive, olimit), acceleration) == Run(noRoom, seqs, table[..], op)
  {
    hide Agree, Job.EntryOk, Job.IsMatch, EmitSequence, EmitLiterals, Progress, Sequences, AllSequences, SoFar, Choose,
         AfterMatch;
    op, anchor, seqs := 0, j.s0, [];
    ghost var b, table0 := BudgetOf(directive, olimit), table[..];
    ProgressStarts(j, dst[..0], directive, olimit);
    SoFarStarts(j, table0, b, acceleration);
    Put(table, j, j.s0, j.HashAt(j.s0, table.Length), j.start + 1);
    var ip: nat := j.s0 + 1;
    var forwardH := j.HashAt(ip, table.Length);
    var atMatch := false;
    var token: nat, m: nat, low: nat, filledIp: nat := 0, 0, 0, 0;
    while true
      invariant Between(j, dst[..], table[..], token, op, anchor, ip, forwardH, atMatch, m, low, filledIp, directive,
                        olimit)
      invariant Progress(j, dst[..token], seqs, anchor, directive, olimit)
      invariant directive != FillOutput ==>
        SoFar(j, table0, b, acceleration, seqs, table[..], token, anchor, ip, if atMatch then Some(m) else None)
      decreases |j.v| - anchor
    {
      var done;
      done, noRoom, token, op, anchor, ip, forwardH, atMatch, m, low, filledIp, seqs :=
        Turn(table, j, dst, token, op, anchor, ip, forwardH, atMatch, m, low, filledIp, directive, olimit, acceleration,
             seqs, table0);
      if done { return noRoom, token, anchor, seqs; }
    }
  }

  /** One turn of the main loop. */
  method Turn(table: array<nat>, j: Job, dst: array<byte>, token0: nat, op0: nat, anchor0: nat, ip0: nat,
              forwardH0: nat, atMatch0: bool, m0: nat, low0: nat, filledIp0: nat, directive: Directive, olimit: nat,
              acceleration: nat, ghost seqs0: seq<Sequence>, ghost table0: seq<nat>)
    returns (done: bool, noRoom: bool, token: nat, op: nat, anchor: nat, ip: nat, forwardH: nat, atMatch: bool, m: nat,
             low: nat,
             filledIp: nat, ghost seqs: seq<Sequence>)
    requires j.Valid() && j.s0 + MFLIMIT + 1 <= |j.v| && acceleration >= 1 && Fits(directive, dst, olimit, |j.v| - j.s0)
    requires (directive == FillOutput ==> j.start == 0) && table.Length > 0 && |table0| > 0
    requires Between(j, dst[..], table[..], token0, op0, anchor0, ip0, forwardH0, atMatch0, m0, low0, filledIp0,
                     directive, olimit)
    requires Progress(j, dst[..token0], seqs0, anchor0, directive, olimit)
    requires directive != FillOutput ==>
      SoFar(j, table0, BudgetOf(directive, olimit), acceleration, seqs0, table[..], token0, anchor0, ip0,
            if atMatch0 then Some(m0) else None)
    modifies dst, table
    ensures done ==> j.TableOk(table[..], |j.v| - MFLIMIT + 1 + j.Delta())
    ensures done && noRoom ==> directive == LimitedOutput && olimit < CompressBound(|j.v| - j.s0)
    ensures !done || !noRoom ==> token <= dst.Length && Progress(j, dst[..token], seqs, anchor, directive, olimit)
    ensures !done ==> anchor0 < anchor <= |j.v|
    ensures !done ==>
      Between(j, dst[..], table[..], token, op, anchor, ip, forwardH, atMatch, m, low, filledIp, directive, olimit)
    ensures directive != FillOutput ==>
      if done then
        AllSequences(j, table0, BudgetOf(directive, olimit), acceleration) == Run(noRoom, seqs, table[..], token)
      else SoFar(j, table0, BudgetOf(directive, olimit), acceleration, seqs, table[..], token, anchor, ip,
                 if atMatch then Some(m) else None)
  {
    hide Agree, Job.EntryOk, Job.IsMatch, EmitSequence, EmitLiterals, Progress, AllSequences, SoFar, Choose, AfterMatch;
    token, op, anchor, ip, forwardH, atMatch, m, low, filledIp, seqs :=
      token0, op0, anchor0, ip0, forwardH0, atMatch0, m0, low0, filledIp0, seqs0;
    var status;
    ghost var s;
    ghost var t := table[..];
    status, op, ip, filledIp, s := EncodeOne(table, j, dst, token, op, anchor, ip, forwardH, atMatch, m, low, filledIp,
                                             directive, olimit, acceleration, seqs);
    if directive != FillOutput {
      SoFarNext(j, table0, BudgetOf(directive, olimit), acceleration, seqs, t, token, anchor, ip0,
                if atMatch then Some(m) else None,
                if status == Continue then One(s, table[..]) else Stop(status == NoRoom, table[..]));
    }
    done, noRoom := true, status == NoRoom;
    if status != Continue { return; }
    seqs := seqs + [s];
    anchor, token := ip, op;
    assert dst[..][..op] == dst[..op];
    if ip >= |j.v| - MFLIMIT + 1 { return; }
    done := false;
    op, ip, forwardH, atMatch, m, low := GoOn(table, j, dst, op, ip, filledIp, directive, olimit, seqs);
  }

  /** Behind a match: the table is filled, and either another match is at hand or the search goes on. */
  method GoOn(table: array<nat>, j: Job, dst: array<byte>, token: nat, ip0: nat, filledIp: nat, directive: Directive,
              olimit: nat, ghost seqs: seq<Sequence>)
    returns (op: nat, ip: nat, forwardH: nat, atMatch: bool, m: nat, low: nat)
    requires j.Valid() && Fits(directive, dst, olimit, |j.v| - j.s0) && token <= dst.Length
    requires j.s0 + MINMATCH <= ip0 && ip0 + MFLIMIT <= |j.v| && j.TableOk(table[..], ip0 + j.Delta())
    requires Progress(j, dst[..token], seqs, ip0, directive, olimit)
    requires directive != NotLimited ==> token + 1 + LASTLITERALS <= olimit
    requires filledIp < ip0 || (directive == FillOutput && token + 1 + LASTLITERALS == olimit)
    modifies dst, table
    ensures Between(j, dst[..], table[..], token, op, ip0, ip, forwardH, atMatch, m, low, filledIp, directive, olimit)
    ensures token <= dst.Length && dst[..token] == old(dst[..token])
    ensures AfterMatch(j, old(table[..]), ip0) == (if atMatch then Some(m) else None, table[..])
    ensures ip == if atMatch then ip0 else ip0 + 1
  {
    hide Agree, Job.EntryOk, Job.IsMatch, EmitSequence, EmitLiterals, Progress, AfterMatch;
    op, ip, forwardH := token, ip0, 0;
    atMatch, m, low := TestNext(table, j, ip);
    ghost var now := dst[..token];
    if atMatch {
      ProgressFacts(j, now, seqs, ip0, directive, olimit);
      CompressBoundLarger(ip0 - j.s0, |j.v| - j.s0);
      dst[op] := 0;
      op := op + 1;
      assert dst[..token] == now;
    } else {
      ip := ip + 1;
      forwardH := j.HashAt(ip, table.Length);
    }
  }

  /** A zero token is an empty run of literals. */
  lemma EmptyRun(pre: Bytes, now: Bytes, lits: Bytes)
    requires |now| == |pre| + 1 && now[..|pre|] == pre && now[|pre|] == 0 && lits == []
    ensures now == pre + EmitLiterals(lits, 0)
  {
  }

  lemma CompressBoundLarger(c: nat, total: nat)
    requires c <= total
    ensures SequencesBound(c) + 16 <= CompressBound(total)
  {
  }
}
