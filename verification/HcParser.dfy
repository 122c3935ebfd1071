/**
  The parser of the hash-chain levels: up to three overlapping matches are held at once, shortened, shifted
  or dropped against each other, and written in order.

  The three labels between which the source jumps are the three states of `Step`. Each jump moves the
  furthest match end forward, and every match that is written is genuine, at least four bytes long and
  starts where the previous one ended or later.
*/
module HcParser {
  import opened Lz4Format
  import opened BlockWriter
  import opened MatchCount
  import opened HcSearch
  import BC = BlockCompressor

  const OPTIMAL_ML := (ML_MASK - 1) + MINMATCH

  // ---------------------------------------------------------------- one sequence

  /** The match length as `LZ4HC_encodeSequence` writes it: bytes of 255 two at a time, at most one more, and the
      rest. */
  method WriteMatchLengthHc(dst: array<byte>, op0: nat, mc: nat) returns (op: nat)
    requires mc >= ML_MASK && op0 + (mc + 240) / 255 <= dst.Length
    modifies dst
    ensures op == op0 + (mc + 240) / 255 && Appended(dst, op0, op, LenExt(mc))
  {
    ghost var n, rest := (mc - ML_MASK) / 255, (mc - ML_MASK) % 255;
    assert (mc + 240) / 255 == n + 1 && mc - ML_MASK == 255 * n + rest;
    var length;
    op, length := WritePairs(dst, op0, mc - ML_MASK, n, rest);
    if length >= 255 {
      length := length - 255;
      dst[op] := 255;
      op := op + 1;
    }
    dst[op] := length;
    op := op + 1;
    hide LenBytes;
    LenBytesWritten(dst[..op], op0, mc - ML_MASK);
  }

  method WritePairs(dst: array<byte>, op0: nat, length0: nat, ghost n: nat, ghost rest: nat)
    returns (op: nat, length: nat)
    requires length0 == 255 * n + rest && rest < 255 && op0 + n < dst.Length
    modifies dst
    ensures op0 <= op <= op0 + n && length == 255 * (n - (op - op0)) + rest && length < 510
    ensures forall i :: 0 <= i < op0 ==> dst[i] == old(dst[i])
    ensures forall i :: op0 <= i < op ==> dst[i] == 255
  {
    op, length := op0, length0;
    while length >= 510
      invariant op0 <= op <= op0 + n && length == 255 * (n - (op - op0)) + rest
      invariant forall i :: 0 <= i < op0 ==> dst[i] == old(dst[i])
      invariant forall i :: op0 <= i < op ==> dst[i] == 255
    {
      dst[op], dst[op + 1] := 255, 255;
      op, length := op + 2, length - 510;
    }
  }

  /** The offset and match length of a sequence whose literals stand at `op0`. */
  method WriteMatchHc(dst: array<byte>, token: nat, op0: nat, offset: nat, mc: nat, ghost pre: Bytes, ghost lits: Bytes)
    returns (op: nat)
    requires 1 <= offset <= DISTANCE_MAX && token + 1 + (|lits| + 240) / 255 + |lits| == op0 - 2
    requires op0 + (mc + 240) / 255 <= dst.Length
    requires token == |pre| && dst[..op0] == pre + EmitLiterals(lits, 0) + [offset % 256, offset / 256]
    modifies dst
    ensures op == op0 + (mc + 240) / 255
    ensures dst[..op] == pre + EmitSequence(Sequence(lits, offset, mc + MINMATCH))
  {
    hide EmitLiterals, EmitSequence;
    CompleteToken(dst, op0, offset, mc, pre, lits, token);
    op := op0;
    if mc >= ML_MASK {
      op := WriteMatchLengthHc(dst, op0, mc);
    } else {
      assert dst[..op] == dst[..op] + LenExt(mc);
    }
    SequenceWritten(pre, Sequence(lits, offset, mc + MINMATCH), dst[..op]);
  }

  /** `LZ4HC_encodeSequence`; `overflow` is its buffer issue. */
  method EncodeSequence(dst: array<byte>, op0: nat, v: Bytes, anchor: nat, ip: nat, matchLength: nat, ref: nat,
                        limit: BC.Directive, oend: int)
    returns (overflow: bool, op: nat)
    requires anchor <= ip && ip + MFLIMIT <= |v| && matchLength >= MINMATCH && ref < ip && ip - ref <= DISTANCE_MAX
    requires op0 <= dst.Length && oend <= dst.Length
    requires limit == BC.NotLimited ==>
      var afterLits := op0 + 1 + (ip - anchor + 240) / 255 + (ip - anchor);
      afterLits + 8 <= dst.Length && afterLits + 2 + (matchLength - MINMATCH + 240) / 255 <= dst.Length
    modifies dst
    ensures overflow ==> limit != BC.NotLimited && op == op0 && dst[..op0] == old(dst[..op0])
    ensures overflow ==> var ll, mc := ip - anchor, matchLength - MINMATCH;
      || op0 + 1 + ll + 8 + ll / 255 > oend
      || op0 + 1 + (ll + 240) / 255 + ll + 2 + (mc + 240) / 255 + 6 > oend
    ensures !overflow ==>
      && op <= dst.Length
      && dst[..op] == old(dst[..op0]) + EmitSequence(Sequence(v[anchor..ip], ip - ref, matchLength))
    ensures !overflow && limit != BC.NotLimited ==> op + LASTLITERALS <= oend
    ensures !overflow ==>
      op == op0 + 1 + (ip - anchor + 240) / 255 + (ip - anchor) + 2 + (matchLength - MINMATCH + 240) / 255
  {
    hide EmitSequence, EmitLiterals;
    var length := ip - anchor;
    ghost var pre := dst[..op0];
    if limit != BC.NotLimited && op0 + 1 + length / 255 + length + (2 + 1 + LASTLITERALS) > oend {
      return true, op0;
    }
    assert v[anchor..anchor + length] == v[anchor..ip];
    op := WriteLiterals(dst, op0, v, anchor, length);
    op := WriteOffset(dst, op, ip - ref);
    length := matchLength - MINMATCH;
    if limit != BC.NotLimited && op + length / 255 + (1 + LASTLITERALS) > oend {
      assert dst[..op0] == dst[..op][..op0] == pre;
      return true, op0;
    }
    op := WriteMatchHc(dst, op0, op, ip - ref, length, pre, v[anchor..ip]);
    overflow := false;
  }

  // ---------------------------------------------------------------- the parser's state

  /** What stays fixed: the bytes `v` with the block starting at `s0`, and the output limit. `olimit` is the
      end of the destination; in fill mode sequences stop five bytes before it. */
  datatype Job = Job(v: Bytes, s0: nat, limit: BC.Directive, olimit: nat, hash: Bytes -> nat, attempts: nat,
                     analysis: bool) {
    ghost predicate Valid() {
      s0 + MFLIMIT <= |v|
    }

    function Mflimit(): int { |v| - MFLIMIT }

    function Oend(): int { if limit == BC.FillOutput then olimit - LASTLITERALS else olimit }

    /** The same block as a job of the fast compressor, whose notion of progress is used. */
    function Fast(): (j: BC.Job)
      requires s0 <= |v|
      ensures j.Valid() && j.v == v && j.s0 == s0
    {
      BC.Job(v, s0, s0, BC.ByU32, BC.WithPrefix64k, false, hash)
    }

    ghost predicate Fits(dst: array<byte>)
      requires s0 <= |v|
    {
      if limit == BC.NotLimited then BC.CompressBound(|v| - s0) <= dst.Length else olimit <= dst.Length
    }

    ghost predicate Progress(out: Bytes, seqs: seq<Sequence>, anchor: nat)
      requires s0 <= |v|
    {
      BC.Progress(Fast(), out, seqs, anchor, limit, olimit)
    }

    /** A candidate sequence: a genuine match long enough to be written, within the limits of the format. */
    ghost predicate Candidate(start: nat, ref: nat, len: nat) {
      IsMatch(v, start, ref, len) && len >= MINMATCH && start + MFLIMIT <= |v| && start + len + LASTLITERALS <= |v|
    }
  }

  /** Up to three matches: the current one at `ip`, the first one found there (`0`), and the next one (`2`). */
  datatype State = State(ip: nat, ref: nat, ml: nat, start0: nat, ref0: nat, ml0: nat, start2: nat, ref2: nat, ml2: nat)

  datatype Label = MainLoop | Search2 | Search3 | LastLiterals | DestOverflow

  /** What holds at each label. `next` is the first position not yet in the tables. */
  ghost predicate At(j: Job, l: Label, s: State, anchor: nat, next: nat) {
    && j.s0 <= anchor && next <= j.Mflimit()
    && match l
       case MainLoop => anchor <= s.ip <= |j.v| && next <= s.ip
       case Search2 =>
         && anchor <= s.start0 <= s.ip <= s.start0 + 2
         && j.Candidate(s.ip, s.ref, s.ml) && j.Candidate(s.start0, s.ref0, s.ml0)
         && s.ml >= s.ml0 && (s.start0 < s.ip ==> s.ml > s.ml0 && s.start0 + s.ml0 <= j.Mflimit())
         && next <= s.ip + s.ml - 2
       case Search3 =>
         && anchor <= s.ip
         && j.Candidate(s.ip, s.ref, s.ml) && j.Candidate(s.start2, s.ref2, s.ml2) && s.ml2 >= 5
         && s.ip + s.ml <= j.Mflimit()
         && s.ip + 2 <= s.start2 <= s.ip + s.ml + 1
         && (s.start2 == s.ip + 2 ==> s.ml >= 6 && s.ml2 >= 7)
         && (s.start2 == s.ip + s.ml + 1 ==> s.ml2 >= 6)
         && next <= s.start2 + s.ml2 - 3
       case LastLiterals => anchor <= |j.v|
       case DestOverflow => anchor <= s.ip && j.Candidate(s.ip, s.ref, s.ml) && j.limit != BC.NotLimited
  }

  /** How far the furthest match held reaches; every jump moves it forward. */
  function Reach(l: Label, s: State): nat {
    match l
    case MainLoop => s.ip
    case Search2 => s.ip + s.ml
    case Search3 => s.start2 + s.ml2
    case LastLiterals => 0
    case DestOverflow => 0
  }

  // ---------------------------------------------------------------- cutting and moving matches

  lemma Shorter(j: Job, start: nat, ref: nat, len: nat, n: nat)
    requires j.Candidate(start, ref, len) && MINMATCH <= n <= len
    ensures j.Candidate(start, ref, n)
  {
    AgreeShorter(j.v, start, ref, len, n);
  }

  lemma Later(j: Job, start: nat, ref: nat, len: nat, c: nat)
    requires j.Candidate(start, ref, len) && c + MINMATCH <= len && start + c + MFLIMIT <= |j.v|
    ensures j.Candidate(start + c, ref + c, len - c)
  {
  }

  /** Encoding one candidate. */
  method EncodeCandidate(dst: array<byte>, j: Job, op0: nat, anchor: nat, start: nat, ref: nat, len: nat,
                         ghost seqs: seq<Sequence>)
    returns (overflow: bool, op: nat, ghost s: Sequence)
    requires j.Valid() && j.Fits(dst) && op0 <= dst.Length && j.Progress(dst[..op0], seqs, anchor)
    requires anchor <= start && j.Candidate(start, ref, len)
    modifies dst
    ensures op <= dst.Length
    ensures overflow ==> op == op0 && dst[..op0] == old(dst[..op0]) && j.limit != BC.NotLimited
    ensures overflow && j.limit == BC.LimitedOutput ==> j.olimit < BC.CompressBound(|j.v| - j.s0)
    ensures !overflow ==> j.Progress(dst[..op], seqs + [s], start + len)
  {
    hide Agree, BC.Progress, EmitSequence;
    ghost var pre := dst[..op0];
    BC.ProgressFacts(j.Fast(), pre, seqs, anchor, j.limit, j.olimit);
    BC.SequenceRoom(op0, anchor - j.s0, start - anchor, len - MINMATCH, |j.v| - j.s0);
    overflow, op := EncodeSequence(dst, op0, j.v, anchor, start, len, ref, j.limit,
                                   if j.limit == BC.NotLimited then 0 else j.Oend());
    s := Sequence(j.v[anchor..start], start - ref, start + len - start);
    if !overflow {
      BC.ProgressNext(j.Fast(), pre, seqs, anchor, j.limit, j.olimit, start, ref, start + len, dst[..op]);
    }
  }

  // ---------------------------------------------------------------- the searches

  /** The first position not yet in the tables. */
  function Upcoming(ctx: Context): int
    reads ctx
  {
    ctx.nextToUpdate - ctx.lowLimit
  }

  /** `LZ4HC_InsertAndFindBestMatch`. */
  method FindBest(ctx: Context, j: Job, ip: nat) returns (ml: nat, ref: nat)
    requires j.Valid() && ctx.Valid() && 0 <= Upcoming(ctx) <= ip && ip + MFLIMIT <= |j.v|
    modifies ctx`nextToUpdate, ctx.hashTable, ctx.chainTable
    ensures ctx.Valid() && Upcoming(ctx) == ip
    ensures ml >= MINMATCH ==> j.Candidate(ip, ref, ml)
  {
    hide Agree;
    var start;
    var q := Query(j.v, ctx.DictSize(), ip, ip, |j.v| - LASTLITERALS, MINMATCH - 1);
    ml, ref, start := ctx.InsertAndGetWiderMatch(q, j.attempts, j.analysis, false, false, j.hash);
  }

  /** `LZ4HC_InsertAndGetWiderMatch` near the end of a match, looking for a wider one. */
  method FindWider(ctx: Context, j: Job, ip: nat, iLow: nat, longest: nat) returns (ml: nat, ref: nat, start: nat)
    requires j.Valid() && ctx.Valid() && 0 <= Upcoming(ctx) <= ip && ip + MFLIMIT <= |j.v|
    requires iLow <= ip < iLow + longest && iLow + longest + MFLIMIT <= |j.v|
    modifies ctx`nextToUpdate, ctx.hashTable, ctx.chainTable
    ensures ctx.Valid() && Upcoming(ctx) == ip
    ensures ml == longest || (ml > longest && j.Candidate(start, ref,
                                                          ml) && iLow <= start <= ip && start + ml >= ip + MINMATCH)
  {
    hide Agree;
    var q := Query(j.v, ctx.DictSize(), ip, iLow, |j.v| - LASTLITERALS, longest);
    ml, ref, start := ctx.InsertAndGetWiderMatch(q, j.attempts, j.analysis, false, false, j.hash);
  }

  // ---------------------------------------------------------------- the three labels

  /** One turn of the main loop: a first match, or one position further. */
  method StepMain(ctx: Context, j: Job, s: State, anchor: nat) returns (l: Label, t: State)
    requires j.Valid() && ctx.Valid() && Upcoming(ctx) >= 0 && At(j, MainLoop, s, anchor, Upcoming(ctx))
    modifies ctx`nextToUpdate, ctx.hashTable, ctx.chainTable
    ensures ctx.Valid() && Upcoming(ctx) >= 0 && At(j, l, t, anchor, Upcoming(ctx))
    ensures l == MainLoop || l == Search2 || l == LastLiterals
    ensures l != LastLiterals ==> Reach(l, t) > Reach(MainLoop, s)
  {
    hide IsMatch;
    if s.ip > j.Mflimit() { return LastLiterals, s; }
    var ml, ref := FindBest(ctx, j, s.ip);
    if ml < MINMATCH { return MainLoop, s.(ip := s.ip + 1); }
    return Search2, State(s.ip, ref, ml, s.ip, ref, ml, 0, 0, 0);
  }

  /** `_Search2`: look for a second, wider match near the end of the current one. */
  method StepSearch2(ctx: Context, j: Job, dst: array<byte>, s: State, op0: nat, anchor0: nat,
                     ghost seqs0: seq<Sequence>)
    returns (l: Label, t: State, op: nat, anchor: nat, ghost seqs: seq<Sequence>)
    requires j.Valid() && ctx.Valid() && Upcoming(ctx) >= 0 && At(j, Search2, s, anchor0, Upcoming(ctx))
    requires j.Fits(dst) && op0 <= dst.Length && j.Progress(dst[..op0], seqs0, anchor0)
    modifies dst, ctx`nextToUpdate, ctx.hashTable, ctx.chainTable
    ensures ctx.Valid() && Upcoming(ctx) >= 0 && At(j, l, t, anchor, Upcoming(ctx))
    ensures op <= dst.Length && j.Progress(dst[..op], seqs, anchor)
    ensures l == DestOverflow && j.limit == BC.LimitedOutput ==> j.olimit < BC.CompressBound(|j.v| - j.s0)
    ensures l == DestOverflow || Reach(l, t) > Reach(Search2, s) || (l == MainLoop && Reach(l, t) == Reach(Search2, s))
    ensures l != LastLiterals
  {
    hide IsMatch, BC.Progress, Job.Fits;
    op, anchor, seqs := op0, anchor0, seqs0;
    var ml2, ref2, start2 := s.ml, 0, 0;
    if s.ip + s.ml <= j.Mflimit() {
      ml2, ref2, start2 := FindWider(ctx, j, s.ip + s.ml - 2, s.ip, s.ml);
    }
    if ml2 == s.ml {
      var overflow;
      ghost var q;
      overflow, op, q := EncodeCandidate(dst, j, op0, anchor0, s.ip, s.ref, s.ml, seqs0);
      if overflow { return DestOverflow, s, op, anchor, seqs; }
      return MainLoop, s.(ip := s.ip + s.ml), op, s.ip + s.ml, seqs + [q];
    }
    t := s.(start2 := start2, ref2 := ref2, ml2 := ml2);
    if t.start0 < t.ip && t.start2 < t.ip + t.ml0 {
      t := t.(ip := t.start0, ref := t.ref0, ml := t.ml0);
    }
    if t.start2 - t.ip < 3 {
      t := t.(ml := t.ml2, ip := t.start2, ref := t.ref2);
      l := Search2;
    } else {
      l := Search3;
    }
  }

  /** The length the first of two overlapping matches is to keep, before the second one. */
  function Squeezed(s: State): nat
    requires s.ip <= s.start2 && s.ml2 >= MINMATCH
  {
    Min(Min(s.ml, OPTIMAL_ML), s.start2 - s.ip + s.ml2 - MINMATCH)
  }

  /** The second match moved later by `c` bytes. */
  function Moved(s: State, c: nat): State
    requires c <= s.ml2
  {
    s.(start2 := s.start2 + c, ref2 := s.ref2 + c, ml2 := s.ml2 - c)
  }

  /** The correction at the head of `_Search3`. */
  function Corrected(s: State): State
    requires s.ip <= s.start2 && s.ml2 >= MINMATCH
  {
    var correction := Squeezed(s) - (s.start2 - s.ip);
    if s.start2 - s.ip < OPTIMAL_ML && correction > 0 then Moved(s, correction) else s
  }

  /** What holds at `_Search3` once the second match has been corrected. */
  ghost predicate Overlap(j: Job, s: State, anchor: nat, next: nat) {
    && j.s0 <= anchor <= s.ip
    && j.Candidate(s.ip, s.ref, s.ml) && j.Candidate(s.start2, s.ref2, s.ml2)
    && s.ip + s.ml <= j.Mflimit() && s.ip + MINMATCH <= s.start2 <= s.ip + s.ml + 1
    && (s.start2 == s.ip + s.ml + 1 ==> s.ml2 >= 6)
    && next <= s.start2 + s.ml2 - 3 && next <= j.Mflimit()
  }

  lemma CorrectedOverlap(j: Job, s: State, anchor: nat, next: nat)
    requires At(j, Search3, s, anchor, next)
    ensures Overlap(j, Corrected(s), anchor, next) && Reach(Search3, Corrected(s)) == Reach(Search3, s)
  {
    hide IsMatch;
    var c := Corrected(s).start2 - s.start2;
    if c > 0 { Later(j, s.start2, s.ref2, s.ml2, c); }
  }

  /** `_Search3`: look for a third match near the end of the second one; write what can no longer change. */
  method StepSearch3(ctx: Context, j: Job, dst: array<byte>, s0: State, op0: nat, anchor0: nat,
                     ghost seqs0: seq<Sequence>)
    returns (l: Label, t: State, op: nat, anchor: nat, ghost seqs: seq<Sequence>)
    requires j.Valid() && ctx.Valid() && Upcoming(ctx) >= 0 && At(j, Search3, s0, anchor0, Upcoming(ctx))
    requires j.Fits(dst) && op0 <= dst.Length && j.Progress(dst[..op0], seqs0, anchor0)
    modifies dst, ctx`nextToUpdate, ctx.hashTable, ctx.chainTable
    ensures ctx.Valid() && Upcoming(ctx) >= 0 && At(j, l, t, anchor, Upcoming(ctx))
    ensures op <= dst.Length && j.Progress(dst[..op], seqs, anchor)
    ensures l == DestOverflow && j.limit == BC.LimitedOutput ==> j.olimit < BC.CompressBound(|j.v| - j.s0)
    ensures l == DestOverflow || Reach(l, t) > Reach(Search3,
                                                     s0) || (l == MainLoop && Reach(l, t) == Reach(Search3, s0))
    ensures l != LastLiterals
  {
    hide IsMatch, BC.Progress, Job.Fits, Overlap;
    CorrectedOverlap(j, s0, anchor0, Upcoming(ctx));
    var s := Corrected(s0);
    op, anchor, seqs := op0, anchor0, seqs0;
    var ml3, ref3, start3 := s.ml2, 0, 0;
    if s.start2 + s.ml2 <= j.Mflimit() {
      ml3, ref3, start3 := ThirdMatch(ctx, j, s, anchor);
    }
    if ml3 == s.ml2 {
      l, t, op, anchor, seqs := WriteBoth(j, dst, s, op, anchor, seqs, Upcoming(ctx));
    } else if start3 < s.ip + s.ml + 3 {
      if start3 >= s.ip + s.ml {
        l, t, op, anchor, seqs := DropSecond(j, dst, s, op, anchor, seqs, ml3, ref3, start3, Upcoming(ctx));
      } else {
        t := ReplaceSecond(j, s, anchor, ml3, ref3, start3, Upcoming(ctx));
        l := Search3;
      }
    } else {
      l, t, op, anchor, seqs := WriteFirst(j, dst, s, op, anchor, seqs, ml3, ref3, start3, Upcoming(ctx));
    }
  }

  /** A third match, wider than the second and reaching further. */
  ghost predicate Third(j: Job, s: State, ml3: nat, ref3: nat, start3: nat, next: int) {
    && j.Candidate(start3, ref3, ml3) && ml3 > s.ml2
    && s.start2 <= start3 <= s.start2 + s.ml2 - 3 && start3 + ml3 > s.start2 + s.ml2
    && s.start2 + s.ml2 <= j.Mflimit() && 0 <= next <= s.start2 + s.ml2 - 3
  }

  method ThirdMatch(ctx: Context, j: Job, s: State, anchor: nat) returns (ml3: nat, ref3: nat, start3: nat)
    requires j.Valid() && ctx.Valid() && Upcoming(ctx) >= 0 && Overlap(j, s, anchor, Upcoming(ctx))
    requires s.start2 + s.ml2 <= j.Mflimit()
    modifies ctx`nextToUpdate, ctx.hashTable, ctx.chainTable
    ensures ctx.Valid() && Upcoming(ctx) >= 0 && Overlap(j, s, anchor, Upcoming(ctx))
    ensures ml3 == s.ml2 || Third(j, s, ml3, ref3, start3, Upcoming(ctx))
  {
    hide IsMatch;
    ml3, ref3, start3 := FindWider(ctx, j, s.start2 + s.ml2 - 3, s.start2, s.ml2);
  }

  /** No better match: write the first two. */
  method WriteBoth(j: Job, dst: array<byte>, s: State, op0: nat, anchor0: nat, ghost seqs0: seq<Sequence>,
                   ghost next: nat)
    returns (l: Label, t: State, op: nat, anchor: nat, ghost seqs: seq<Sequence>)
    requires j.Valid() && Overlap(j, s, anchor0, next)
    requires j.Fits(dst) && op0 <= dst.Length && j.Progress(dst[..op0], seqs0, anchor0)
    modifies dst
    ensures At(j, l, t, anchor, next) && op <= dst.Length && j.Progress(dst[..op], seqs, anchor)
    ensures l == DestOverflow && j.limit == BC.LimitedOutput ==> j.olimit < BC.CompressBound(|j.v| - j.s0)
    ensures l == DestOverflow || (l == MainLoop && Reach(l, t) == Reach(Search3, s))
  {
    hide IsMatch, BC.Progress, Job.Fits;
    t, op, anchor, seqs := s, op0, anchor0, seqs0;
    if t.start2 < t.ip + t.ml {
      Shorter(j, t.ip, t.ref, t.ml, t.start2 - t.ip);
      t := t.(ml := t.start2 - t.ip);
    }
    var overflow;
    ghost var q;
    overflow, op, q := EncodeCandidate(dst, j, op, anchor, t.ip, t.ref, t.ml, seqs);
    if overflow { return DestOverflow, t, op, anchor, seqs; }
    anchor, seqs := t.ip + t.ml, seqs + [q];
    t := t.(ip := t.start2);
    overflow, op, q := EncodeCandidate(dst, j, op, anchor, t.ip, t.ref2, t.ml2, seqs);
    if overflow { return DestOverflow, t.(ml := t.ml2, ref := t.ref2), op, anchor, seqs; }
    anchor, seqs := t.ip + t.ml2, seqs + [q];
    return MainLoop, t.(ip := anchor), op, anchor, seqs;
  }

  /** Not enough space for the second match: the first is written and the third becomes the first. */
  method DropSecond(j: Job, dst: array<byte>, s: State, op0: nat, anchor0: nat, ghost seqs0: seq<Sequence>, ml3: nat,
                    ref3: nat, start3: nat, ghost next: nat)
    returns (l: Label, t: State, op: nat, anchor: nat, ghost seqs: seq<Sequence>)
    requires j.Valid() && Overlap(j, s, anchor0, next) && Third(j, s, ml3, ref3, start3, next)
    requires s.ip + s.ml <= start3 < s.ip + s.ml + 3
    requires j.Fits(dst) && op0 <= dst.Length && j.Progress(dst[..op0], seqs0, anchor0)
    modifies dst
    ensures At(j, l, t, anchor, next) && op <= dst.Length && j.Progress(dst[..op], seqs, anchor)
    ensures l == DestOverflow && j.limit == BC.LimitedOutput ==> j.olimit < BC.CompressBound(|j.v| - j.s0)
    ensures l == DestOverflow || (l == Search2 && Reach(l, t) > Reach(Search3, s))
  {
    hide IsMatch, BC.Progress, Job.Fits;
    t, op, anchor, seqs := s, op0, anchor0, seqs0;
    if t.start2 < t.ip + t.ml {
      var correction := t.ip + t.ml - t.start2;
      if t.ml2 - correction >= MINMATCH { Later(j, t.start2, t.ref2, t.ml2, correction); }
      t := Moved(t, correction);
      if t.ml2 < MINMATCH {
        t := t.(start2 := start3, ref2 := ref3, ml2 := ml3);
      }
    }
    var overflow;
    ghost var q;
    overflow, op, q := EncodeCandidate(dst, j, op, anchor, t.ip, t.ref, t.ml, seqs);
    if overflow { return DestOverflow, t, op, anchor, seqs; }
    anchor, seqs := t.ip + t.ml, seqs + [q];
    t := t.(ip := start3, ref := ref3, ml := ml3, start0 := t.start2, ref0 := t.ref2, ml0 := t.ml2);
    l := Search2;
  }

  /** The third match begins inside the first: it takes the place of the second. */
  method ReplaceSecond(j: Job, s: State, ghost anchor: nat, ml3: nat, ref3: nat, start3: nat, ghost next: nat)
    returns (t: State)
    requires j.Valid() && Overlap(j, s, anchor, next) && Third(j, s, ml3, ref3, start3, next) && start3 < s.ip + s.ml
    ensures At(j, Search3, t, anchor, next) && Reach(Search3, t) > Reach(Search3, s)
  {
    hide IsMatch;
    t := s.(start2 := start3, ref2 := ref3, ml2 := ml3);
  }

  /** Three ascending matches: the first is cut before the second and written. */
  method WriteFirst(j: Job, dst: array<byte>, s: State, op0: nat, anchor0: nat, ghost seqs0: seq<Sequence>, ml3: nat,
                    ref3: nat, start3: nat, ghost next: nat)
    returns (l: Label, t: State, op: nat, anchor: nat, ghost seqs: seq<Sequence>)
    requires j.Valid() && Overlap(j, s, anchor0, next) && Third(j, s, ml3, ref3, start3, next)
    requires start3 >= s.ip + s.ml + 3
    requires j.Fits(dst) && op0 <= dst.Length && j.Progress(dst[..op0], seqs0, anchor0)
    modifies dst
    ensures At(j, l, t, anchor, next) && op <= dst.Length && j.Progress(dst[..op], seqs, anchor)
    ensures l == DestOverflow && j.limit == BC.LimitedOutput ==> j.olimit < BC.CompressBound(|j.v| - j.s0)
    ensures l == DestOverflow || (l == Search3 && Reach(l, t) > Reach(Search3, s))
  {
    hide IsMatch, BC.Progress, Job.Fits;
    t, op, anchor, seqs := s, op0, anchor0, seqs0;
    if t.start2 < t.ip + t.ml {
      if t.start2 - t.ip < OPTIMAL_ML {
        var ml := Squeezed(t);
        Shorter(j, t.ip, t.ref, t.ml, ml);
        if ml > t.start2 - t.ip {
          Later(j, t.start2, t.ref2, t.ml2, ml - (t.start2 - t.ip));
          t := Moved(t, ml - (t.start2 - t.ip));
        }
        t := t.(ml := ml);
      } else {
        Shorter(j, t.ip, t.ref, t.ml, t.start2 - t.ip);
        t := t.(ml := t.start2 - t.ip);
      }
    }
    var overflow;
    ghost var q;
    overflow, op, q := EncodeCandidate(dst, j, op, anchor, t.ip, t.ref, t.ml, seqs);
    if overflow { return DestOverflow, t, op, anchor, seqs; }
    anchor, seqs := t.ip + t.ml, seqs + [q];
    t := t.(ip := t.start2, ref := t.ref2, ml := t.ml2, start2 := start3, ref2 := ref3, ml2 := ml3);
    l := Search3;
  }

  /** `_dest_overflow` in fill mode: the sequence that did not fit, its match cut to the bytes that are left,
      unless what follows it could no longer meet the end of block rules. */
  method FillTail(j: Job, dst: array<byte>, s: State, op0: nat, anchor0: nat, ghost seqs0: seq<Sequence>)
    returns (op: nat, anchor: nat, ghost seqs: seq<Sequence>)
    requires j.Valid() && j.limit == BC.FillOutput && anchor0 <= s.ip && j.Candidate(s.ip, s.ref, s.ml)
    requires j.Fits(dst) && op0 <= dst.Length && j.Progress(dst[..op0], seqs0, anchor0)
    modifies dst
    ensures op <= dst.Length && j.Progress(dst[..op], seqs, anchor)
  {
    hide Agree, BC.Progress, EmitSequence;
    op, anchor, seqs := op0, anchor0, seqs0;
    ghost var pre := dst[..op0];
    BC.ProgressFacts(j.Fast(), pre, seqs, anchor, j.limit, j.olimit);
    var ll := s.ip - anchor;
    var totalCost := 1 + (ll + 240) / 255 + ll;
    var maxLitPos := j.Oend() - 3;
    if op + totalCost <= maxLitPos {
      var ml := Min(s.ml, MINMATCH + (ML_MASK - 1) + (maxLitPos - (op + totalCost)) * 255);
      if (j.Oend() + LASTLITERALS) - (op + totalCost + 2) - 1 + ml >= MFLIMIT {
        CutCost(maxLitPos - (op + totalCost), ml);
        Shorter(j, s.ip, s.ref, s.ml, ml);
        var overflow;
        overflow, op := EncodeSequence(dst, op, j.v, anchor, s.ip, ml, s.ref, BC.NotLimited, 0);
        BC.ProgressNext(j.Fast(), pre, seqs, anchor, j.limit, j.olimit, s.ip, s.ref, s.ip + ml, dst[..op]);
        seqs := seqs + [Sequence(j.v[anchor..s.ip], s.ip - s.ref, ml)];
        anchor := s.ip + ml;
      }
    }
  }

  lemma CutCost(left: nat, ml: nat)
    requires MINMATCH <= ml <= MINMATCH + (ML_MASK - 1) + left * 255
    ensures (ml - MINMATCH + 240) / 255 <= left
    ensures ml + LASTLITERALS < MFLIMIT ==> (ml - MINMATCH + 240) / 255 == 0
  {
  }

  /** Between the labels of the parser, until no more matches are to be written. */
  method Parse(ctx: Context, j: Job, dst: array<byte>)
    returns (l: Label, s: State, op: nat, anchor: nat, ghost seqs: seq<Sequence>)
    requires j.Valid() && j.Fits(dst) && (j.limit == BC.FillOutput ==> j.olimit >= 1)
    requires ctx.Valid() && 0 <= Upcoming(ctx) <= j.s0
    modifies dst, ctx`nextToUpdate, ctx.hashTable, ctx.chainTable
    ensures ctx.Valid() && Upcoming(ctx) <= j.Mflimit() && op <= dst.Length && j.Progress(dst[..op], seqs, anchor)
    ensures l == LastLiterals || (l == DestOverflow && Upcoming(ctx) >= 0 && At(j, l, s, anchor, Upcoming(ctx)))
    ensures l == DestOverflow && j.limit == BC.LimitedOutput ==> j.olimit < BC.CompressBound(|j.v| - j.s0)
  {
    hide BC.Progress, Job.Fits, Job.Candidate;
    l, s, op, anchor, seqs := MainLoop, State(j.s0, 0, 0, 0, 0, 0, 0, 0, 0), 0, j.s0, [];
    BC.ProgressStarts(j.Fast(), dst[..0], j.limit, j.olimit);
    while l != LastLiterals && l != DestOverflow
      invariant ctx.Valid() && Upcoming(ctx) >= 0 && At(j, l, s, anchor, Upcoming(ctx))
      invariant op <= dst.Length && j.Progress(dst[..op], seqs, anchor)
      invariant l == DestOverflow && j.limit == BC.LimitedOutput ==> j.olimit < BC.CompressBound(|j.v| - j.s0)
      decreases l != LastLiterals && l != DestOverflow, |j.v| - Reach(l, s), l != MainLoop
    {
      if l == MainLoop {
        l, s := StepMain(ctx, j, s, anchor);
      } else if l == Search2 {
        l, s, op, anchor, seqs := StepSearch2(ctx, j, dst, s, op, anchor, seqs);
      } else {
        l, s, op, anchor, seqs := StepSearch3(ctx, j, dst, s, op, anchor, seqs);
      }
      ReachBound(j, l, s, anchor, Upcoming(ctx));
    }
  }

  lemma ReachBound(j: Job, l: Label, s: State, anchor: nat, next: nat)
    requires At(j, l, s, anchor, next)
    ensures Reach(l, s) <= |j.v|
  {
    hide IsMatch;
  }

  /**
    `LZ4HC_compress_hashChain`. Whatever the tables, the hash and the number of attempts: what is written is
    a block of the format for the input consumed, decodable after the prefix; unlimited output stays within
    the compress bound, limited output fails rather than exceed its budget, and fill mode consumes what fits.
  */
  method CompressHashChain(ctx: Context, j: Job, dst: array<byte>) returns (result: nat, consumed: nat)
    requires j.s0 <= |j.v| && j.Fits(dst) && (j.limit == BC.FillOutput ==> j.olimit >= 1)
    requires ctx.Valid() && 0 <= Upcoming(ctx) <= j.s0
    modifies dst, ctx`nextToUpdate, ctx.hashTable, ctx.chainTable
    ensures ctx.Valid() && Upcoming(ctx) <= Max(old(Upcoming(ctx)), j.Mflimit())
    ensures result <= dst.Length && j.s0 + consumed <= |j.v|
    ensures result > 0 ==> Encodes(dst[..result], j.v[..j.s0], j.v[j.s0..j.s0 + consumed])
    ensures result > 0 && j.limit != BC.FillOutput ==> consumed == |j.v| - j.s0
    ensures if j.limit == BC.NotLimited then result <= BC.CompressBound(|j.v| - j.s0) else result <= j.olimit
    ensures result == 0 ==> j.limit == BC.LimitedOutput && j.olimit < BC.CompressBound(|j.v| - j.s0)
  {
    hide BC.Progress, Encodes, EmitLiterals, Job.Candidate;
    var l, op, anchor := LastLiterals, 0, j.s0;
    ghost var seqs: seq<Sequence> := [];
    BC.ProgressStarts(j.Fast(), dst[..0], j.limit, j.olimit);
    if |j.v| - j.s0 >= MFLIMIT + 1 {
      var s;
      l, s, op, anchor, seqs := Parse(ctx, j, dst);
      if l == DestOverflow {
        if j.limit != BC.FillOutput { return 0, 0; }
        op, anchor, seqs := FillTail(j, dst, s, op, anchor, seqs);
      }
    }
    result, consumed := Close(dst, op, j, anchor, seqs);
  }

  /** `_last_literals`. */
  method Close(dst: array<byte>, op: nat, j: Job, anchor: nat, ghost seqs: seq<Sequence>)
    returns (result: nat, consumed: nat)
    requires j.s0 <= |j.v| && j.Fits(dst) && op <= dst.Length && j.Progress(dst[..op], seqs, anchor)
    modifies dst
    ensures result <= dst.Length && j.s0 + consumed <= |j.v|
    ensures result > 0 ==> Encodes(dst[..result], j.v[..j.s0], j.v[j.s0..j.s0 + consumed])
    ensures result > 0 && j.limit != BC.FillOutput ==> consumed == |j.v| - j.s0
    ensures if j.limit == BC.NotLimited then result <= BC.CompressBound(|j.v| - j.s0) else result <= j.olimit
    ensures result == 0 ==> j.limit == BC.LimitedOutput && j.olimit < BC.CompressBound(|j.v| - j.s0)
  {
    hide BC.Progress, Encodes, EmitLiterals, BC.FillRun;
    ghost var written := dst[..op];
    BC.ProgressFacts(j.Fast(), written, seqs, anchor, j.limit, j.olimit);
    var ok, lastRun;
    ok, result, lastRun := BC.EncodeLastLiterals(dst, op, j.Fast(), anchor, j.limit, j.olimit);
    if !ok { return 0, 0; }
    BC.ProgressEnds(j.Fast(), written, seqs, anchor, j.limit, j.olimit, lastRun, dst[..result]);
    BC.LastRunRoom(op, anchor - j.s0, lastRun);
    consumed := anchor + lastRun - j.s0;
  }
}
