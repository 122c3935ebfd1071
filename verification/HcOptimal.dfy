/**
  The optimal parser of the highest compression levels: an array of cells holds, for each position, the last step of
  the cheapest way found to it; the way chosen is reversed in place and then written from front to back.

  Which way is chosen is a matter of prices. That what is written decodes to the input is not: it follows from every
  cell being a literal or a genuine match, whatever the prices.
*/
module HcOptimal {
  import opened Lz4Format
  import opened MatchCount
  import opened HcSearch
  import opened HcParser
  import BC = BlockCompressor

  const OPT_NUM := 0x1000
  const TRAILING_LITERALS := 3

  // ---------------------------------------------------------------- prices

  /** `LZ4HC_literalsPrice`. */
  function LiteralsPrice(litlen: nat): nat {
    if litlen >= RUN_MASK then litlen + 1 + (litlen - RUN_MASK) / 255 else litlen
  }

  /** `LZ4HC_sequencePrice`. */
  function SequencePrice(litlen: nat, mlen: nat): nat
    requires mlen >= MINMATCH
  {
    1 + 2 + LiteralsPrice(litlen)
    + if mlen >= ML_MASK + MINMATCH then 1 + (mlen - (ML_MASK + MINMATCH)) / 255 else 0
  }

  /** A price is the number of bytes that are written. */
  lemma PriceIsSize(s: Sequence)
    requires ValidSequence(s)
    ensures SequencePrice(|s.lits|, s.mlen) == |EmitSequence(s)|
    ensures 1 + LiteralsPrice(|s.lits|) == |EmitLiterals(s.lits, 0)|
  {
    BC.SequenceLength(s);
  }

  // ---------------------------------------------------------------- the cells

  /** `LZ4HC_optimal_t`. */
  datatype Cell = Cell(price: int, off: nat, mlen: nat, litlen: nat)

  /** One step on a way: a literal, of length 1, or a match. */
  datatype Step = Step(mlen: nat, off: nat)

  /** A step from `start` is a literal or a match that may be written. */
  ghost predicate StepOk(j: Job, start: nat, s: Step) {
    s.mlen == 1 || (1 <= s.off <= start && j.Candidate(start, start - s.off, s.mlen))
  }

  /** The last step to `pos`, counted from `ip`. */
  ghost predicate CellOk(j: Job, ip: nat, pos: nat, c: Cell) {
    1 <= c.mlen <= pos && StepOk(j, ip + pos - c.mlen, Step(c.mlen, c.off))
  }

  /** The cells up to `last` hold the last steps to their positions. */
  ghost predicate Filled(j: Job, ip: nat, opt: array<Cell>, last: nat)
    reads opt
  {
    && opt.Length == OPT_NUM + TRAILING_LITERALS && last < opt.Length && opt[0].mlen == 1
    && forall pos :: 0 < pos <= last ==> CellOk(j, ip, pos, opt[pos])
  }

  // ---------------------------------------------------------------- ways

  /** No step back from a position goes beyond the start. */
  ghost predicate Linked(cells: seq<Cell>, last: nat) {
    last < |cells| && forall pos :: 0 < pos <= last ==> 1 <= cells[pos].mlen <= pos
  }

  /** The way to `pos`: the steps found by going back from it. */
  ghost function PathTo(cells: seq<Cell>, pos: nat): seq<Step>
    requires Linked(cells, pos)
    decreases pos
  {
    if pos == 0 then []
    else PathTo(cells, pos - cells[pos].mlen) + [Step(cells[pos].mlen, cells[pos].off)]
  }

  /** All steps before `end` go forward. */
  ghost predicate Forward(cells: seq<Cell>, end: nat) {
    end <= |cells| && forall pos :: 0 <= pos < end ==> cells[pos].mlen >= 1
  }

  /** The steps found by going forward from `pos` until `end` is reached. */
  ghost function WalkFrom(cells: seq<Cell>, pos: nat, end: nat): seq<Step>
    requires Forward(cells, end)
    decreases end - pos
  {
    if pos >= end then []
    else [Step(cells[pos].mlen, cells[pos].off)] + WalkFrom(cells, pos + cells[pos].mlen, end)
  }

  /** A walk does not look back. */
  lemma {:induction false} WalkAhead(cells: seq<Cell>, other: seq<Cell>, pos: nat, end: nat)
    requires Forward(cells, end) && Forward(other, end)
    requires forall i :: pos <= i < end ==> other[i] == cells[i]
    ensures WalkFrom(other, pos, end) == WalkFrom(cells, pos, end)
    decreases end - pos
  {
    if pos < end { WalkAhead(cells, other, pos + cells[pos].mlen, end); }
  }

  /** A way back looks only at cells up to its end. */
  lemma {:induction false} PathBehind(cells: seq<Cell>, other: seq<Cell>, pos: nat)
    requires Linked(cells, pos) && Linked(other, pos) && forall i :: 0 <= i <= pos ==> other[i] == cells[i]
    ensures PathTo(other, pos) == PathTo(cells, pos)
    decreases pos
  {
    if pos > 0 { PathBehind(cells, other, pos - cells[pos].mlen); }
  }

  /** One turn of the reversal: the cell where the step `s` starts now holds that step. */
  lemma Turned(cells: seq<Cell>, other: seq<Cell>, pos: nat, s: Step, end: nat)
    requires Forward(cells, end) && pos < end && s.mlen >= 1
    requires other == cells[pos := cells[pos].(mlen := s.mlen, off := s.off)]
    ensures Forward(other, end) && WalkFrom(other, pos, end) == [s] + WalkFrom(cells, pos + s.mlen, end)
  {
    hide WalkFrom;
    assert other[pos].mlen == s.mlen && other[pos].off == s.off;
    assert Forward(other, end);
    WalkAhead(cells, other, pos + s.mlen, end);
    WalkOne(other, pos, end);
  }

  lemma WalkOne(cells: seq<Cell>, pos: nat, end: nat)
    requires Forward(cells, end) && pos < end
    ensures WalkFrom(cells, pos, end)
      == [Step(cells[pos].mlen, cells[pos].off)] + WalkFrom(cells, pos + cells[pos].mlen, end)
  {
  }

  lemma Regroup(a: seq<Step>, b: Step, c: Step, d: seq<Step>)
    ensures a + [b] + ([c] + d) == a + [b] + [c] + d
  {
  }

  /**
    The reverse traversal: `best` is the last step of the way chosen, from `cur`. Afterwards, going forward from the
    start visits just the steps of that way.
  */
  method Reverse(opt: array<Cell>, cur: nat, best: Step, end: nat)
    requires Linked(opt[..], cur) && Forward(opt[..], end) && cur < end <= cur + best.mlen
    modifies opt
    ensures Forward(opt[..], end)
    ensures WalkFrom(opt[..], 0, end) == PathTo(old(opt[..]), cur) + [best]
  {
    hide WalkFrom;
    ghost var cells := opt[..];
    var candidatePos: nat, selected := cur, best;
    WalkDone(cells, cur + best.mlen, end);
    assert PathTo(cells, cur) + [best] == PathTo(cells, cur) + [best] + [];
    while true
      invariant candidatePos <= cur && selected.mlen >= 1 && Forward(opt[..], end)
      invariant forall i :: 0 <= i <= candidatePos ==> opt[i] == cells[i]
      invariant PathTo(cells, cur) + [best]
             == PathTo(cells, candidatePos) + [selected] + WalkFrom(opt[..], candidatePos + selected.mlen, end)
      decreases candidatePos
    {
      ghost var before := opt[..];
      var next := Step(opt[candidatePos].mlen, opt[candidatePos].off);
      opt[candidatePos] := opt[candidatePos].(mlen := selected.mlen, off := selected.off);
      Turned(before, opt[..], candidatePos, selected, end);
      if next.mlen > candidatePos {
        assert PathTo(cells, candidatePos) == [];
        break;
      }
      Regroup(PathTo(cells, candidatePos - next.mlen), next, selected,
              WalkFrom(before, candidatePos + selected.mlen, end));
      candidatePos, selected := candidatePos - next.mlen, next;
    }
  }

  lemma WalkDone(cells: seq<Cell>, pos: nat, end: nat)
    requires Forward(cells, end) && pos >= end
    ensures WalkFrom(cells, pos, end) == []
  {
  }

  // ---------------------------------------------------------------- filling the cells

  /** What a search found; a length of 0 is nothing. */
  datatype Found = Found(off: nat, len: nat)

  ghost predicate FoundOk(j: Job, ip: nat, m: Found) {
    m.len == 0 || (1 <= m.off <= ip && j.Candidate(ip, ip - m.off, m.len))
  }

  /** `LZ4HC_FindLongerMatch`. */
  method FindLongerMatch(ctx: Context, j: Job, ip: nat, minLen: nat, favorDecSpeed: bool) returns (m: Found)
    requires ctx.Valid() && 0 <= Upcoming(ctx) <= ip && ip + MFLIMIT <= |j.v|
    requires minLen >= 1 && ip + minLen + LASTLITERALS <= |j.v|
    modifies ctx`nextToUpdate, ctx.hashTable, ctx.chainTable
    ensures ctx.Valid() && Upcoming(ctx) == ip && FoundOk(j, ip, m)
  {
    hide Agree;
    var q := Query(j.v, ctx.DictSize(), ip, ip, |j.v| - LASTLITERALS, minLen);
    var matchLength, ref, start := ctx.InsertAndGetWiderMatch(q, j.attempts, true, true, favorDecSpeed, j.hash);
    if matchLength <= minLen { return Found(0, 0); }
    if favorDecSpeed && 18 < matchLength <= 36 {
      Shorter(j, ip, ref, matchLength, 18);
      matchLength := 18;
    }
    m := Found(ip - ref, matchLength);
  }

  /** A match may be cut at any length that can be written. */
  lemma CutFound(j: Job, ip: nat, m: Found, ml: nat)
    requires FoundOk(j, ip, m) && MINMATCH <= ml <= m.len
    ensures StepOk(j, ip, Step(ml, m.off))
  {
    Shorter(j, ip, ip - m.off, m.len, ml);
  }

  /** The prices of the first positions, as literals and by the first match. */
  method FirstPrices(opt: array<Cell>, ghost j: Job, ghost ip: nat, llen: nat, m: Found)
    requires opt.Length == OPT_NUM + TRAILING_LITERALS && MINMATCH <= m.len < OPT_NUM && FoundOk(j, ip, m)
    modifies opt
    ensures Filled(j, ip, opt, m.len)
  {
    hide StepOk, FoundOk;
    var rPos := 0;
    while rPos < MINMATCH
      invariant rPos <= MINMATCH && forall pos :: 0 <= pos < rPos ==> opt[pos].mlen == 1
    {
      opt[rPos] := Cell(LiteralsPrice(llen + rPos), 0, 1, llen + rPos);
      rPos := rPos + 1;
    }
    LiteralsOk(j, ip, opt, MINMATCH - 1);
    var mlen := MINMATCH;
    while mlen <= m.len
      invariant MINMATCH <= mlen <= m.len + 1 && Filled(j, ip, opt, mlen - 1)
    {
      CutFound(j, ip, m, mlen);
      opt[mlen] := Cell(SequencePrice(llen, mlen), m.off, mlen, llen);
      mlen := mlen + 1;
    }
  }

  lemma LiteralsOk(j: Job, ip: nat, opt: array<Cell>, last: nat)
    requires opt.Length == OPT_NUM + TRAILING_LITERALS && last < opt.Length
    requires forall pos :: 0 <= pos <= last ==> opt[pos].mlen == 1
    ensures Filled(j, ip, opt, last)
  {
  }

  /** Literals after the last match. */
  method TrailingLiterals(opt: array<Cell>, ghost j: Job, ghost ip: nat, last: nat)
    requires Filled(j, ip, opt, last) && last < OPT_NUM
    modifies opt
    ensures Filled(j, ip, opt, last + TRAILING_LITERALS)
  {
    hide StepOk;
    var addLit := 1;
    while addLit <= TRAILING_LITERALS
      invariant 1 <= addLit <= TRAILING_LITERALS + 1 && Filled(j, ip, opt, last + addLit - 1)
    {
      opt[last + addLit] := Cell(opt[last].price + LiteralsPrice(addLit), 0, 1, addLit);
      LiteralOk(j, ip, last + addLit, opt[last + addLit]);
      addLit := addLit + 1;
    }
  }

  lemma LiteralOk(j: Job, ip: nat, pos: nat, c: Cell)
    requires pos > 0 && c.mlen == 1
    ensures CellOk(j, ip, pos, c)
  {
  }

  /** Cheaper ways by literals from `cur`, before a match there could be used. */
  method LiteralPrices(opt: array<Cell>, ghost j: Job, ghost ip: nat, cur: nat, ghost last: nat)
    requires Filled(j, ip, opt, last + TRAILING_LITERALS) && cur < last
    modifies opt
    ensures Filled(j, ip, opt, last + TRAILING_LITERALS)
  {
    hide StepOk;
    var baseLitlen := opt[cur].litlen;
    var litlen := 1;
    while litlen < MINMATCH
      invariant litlen >= 1 && Filled(j, ip, opt, last + TRAILING_LITERALS)
    {
      var price := opt[cur].price - LiteralsPrice(baseLitlen) + LiteralsPrice(baseLitlen + litlen);
      var pos := cur + litlen;
      if price < opt[pos].price {
        opt[pos] := Cell(price, 0, 1, baseLitlen + litlen);
        LiteralOk(j, ip, pos, opt[pos]);
      }
      litlen := litlen + 1;
    }
  }

  /** Cheaper ways by a match at `cur`, which may reach beyond the cells filled so far. */
  method MatchPrices(opt: array<Cell>, ghost j: Job, ghost ip: nat, cur: nat, last0: nat, m: Found, favorDecSpeed: bool)
    returns (last: nat)
    requires Filled(j, ip, opt, last0 + TRAILING_LITERALS) && 0 < cur < last0 < OPT_NUM
    requires MINMATCH <= m.len && cur + m.len < OPT_NUM && FoundOk(j, ip + cur, m)
    modifies opt
    ensures last0 <= last < OPT_NUM && Filled(j, ip, opt, last) && (last == last0 || last == cur + m.len)
  {
    hide StepOk, FoundOk;
    last := last0;
    var ml := MINMATCH;
    while ml <= m.len
      invariant MINMATCH <= ml <= m.len + 1
      invariant last == last0 || (ml == m.len + 1 && last0 < last == cur + m.len)
      invariant Filled(j, ip, opt, Max(last0 + TRAILING_LITERALS, cur + ml - 1))
    {
      var pos := cur + ml;
      var ll := if opt[cur].mlen == 1 then opt[cur].litlen else 0;
      var price :=
        if opt[cur].mlen == 1 then (if cur > ll then opt[cur - ll].price else 0) + SequencePrice(ll, ml)
        else opt[cur].price + SequencePrice(0, ml);
      if pos > last + TRAILING_LITERALS || price <= opt[pos].price - (if favorDecSpeed then 1 else 0) {
        if ml == m.len && last < pos { last := pos; }
        CutFound(j, ip + cur, m, ml);
        opt[pos] := Cell(price, m.off, ml, ll);
      }
      ml := ml + 1;
    }
  }

  /** Cells filled up to `last` and three literals after it, all within the block. */
  ghost predicate Ways(j: Job, ip: nat, opt: array<Cell>, last: nat)
    reads opt
  {
    MINMATCH <= last < OPT_NUM && Filled(j, ip, opt, last + TRAILING_LITERALS) && ip + last + LASTLITERALS <= |j.v|
  }

  /** The test whether searching from a position is useful. */
  method Useful(opt: array<Cell>, ghost j: Job, ghost ip: nat, cur: nat, ghost last: nat, fullUpdate: bool)
    returns (useful: bool)
    requires Ways(j, ip, opt, last) && cur < last
  {
    useful := opt[cur + 1].price > opt[cur].price || (fullUpdate && opt[cur + MINMATCH].price >= opt[cur].price + 3);
  }

  /** One further position: `now` is a match that is to be used at once. */
  method TryPosition(ctx: Context, j: Job, opt: array<Cell>, ip: nat, cur: nat, last0: nat, sufficientLen: nat,
                     fullUpdate: bool, favorDecSpeed: bool)
    returns (last: nat, now: Found)
    requires ctx.Valid() && 0 <= Upcoming(ctx) <= ip + cur && ip + cur + MFLIMIT <= |j.v|
    requires Ways(j, ip, opt, last0) && 0 < cur < last0
    modifies ctx`nextToUpdate, ctx.hashTable, ctx.chainTable, opt
    ensures ctx.Valid() && 0 <= Upcoming(ctx) <= ip + cur
    ensures Ways(j, ip, opt, last) && last0 <= last && FoundOk(j, ip + cur, now)
  {
    hide Filled, Agree;
    last, now := last0, Found(0, 0);
    var useful := Useful(opt, j, ip, cur, last, fullUpdate);
    if !useful { return; }
    var newMatch := FindLongerMatch(ctx, j, ip + cur, if fullUpdate then MINMATCH - 1 else last - cur, favorDecSpeed);
    if newMatch.len == 0 { return; }
    if newMatch.len > sufficientLen || newMatch.len + cur >= OPT_NUM { return last, newMatch; }
    LiteralPrices(opt, j, ip, cur, last);
    last := MatchPrices(opt, j, ip, cur, last, newMatch, favorDecSpeed);
    TrailingLiterals(opt, j, ip, last);
  }

  /** The way chosen: its last step starts at `cur`, and the ways to all positions up to there are known. */
  ghost predicate Chosen(j: Job, ip: nat, opt: array<Cell>, cur: nat, best: Step, end: nat)
    reads opt
  {
    && cur < end <= cur + best.mlen && end < OPT_NUM && Filled(j, ip, opt, end) && StepOk(j, ip + cur, best)
  }

  /** The loop over all further positions, and the choice of a way. */
  method ChooseWay(ctx: Context, j: Job, opt: array<Cell>, ip: nat, last0: nat, sufficientLen: nat, fullUpdate: bool,
                   favorDecSpeed: bool)
    returns (cur: nat, best: Step, end: nat)
    requires ctx.Valid() && 0 <= Upcoming(ctx) <= ip && Ways(j, ip, opt, last0)
    modifies ctx`nextToUpdate, ctx.hashTable, ctx.chainTable, opt
    ensures ctx.Valid() && 0 <= Upcoming(ctx) <= ip + end && Upcoming(ctx) <= Max(ip, j.Mflimit())
    ensures Chosen(j, ip, opt, cur, best, end)
  {
    hide Agree, Job.Candidate;
    end, cur := last0, 1;
    while cur < end && ip + cur <= j.Mflimit()
      invariant 1 <= cur <= end && ctx.Valid() && 0 <= Upcoming(ctx) <= ip + cur && Ways(j, ip, opt, end)
      invariant Upcoming(ctx) <= Max(ip, j.Mflimit())
      decreases OPT_NUM - cur
    {
      var now;
      end, now := TryPosition(ctx, j, opt, ip, cur, end, sufficientLen, fullUpdate, favorDecSpeed);
      if now.len > 0 { return cur, Step(now.len, now.off), cur + 1; }
      cur := cur + 1;
    }
    best := Step(opt[end].mlen, opt[end].off);
    cur := end - best.mlen;
  }

  // ---------------------------------------------------------------- writing

  /** Every step may be taken from where the ones before it lead. */
  ghost predicate StepsOk(j: Job, start: nat, steps: seq<Step>)
    decreases |steps|
  {
    |steps| > 0 ==> StepOk(j, start, steps[0]) && StepsOk(j, start + steps[0].mlen, steps[1..])
  }

  ghost function Length(steps: seq<Step>): nat {
    if |steps| == 0 then 0 else steps[0].mlen + Length(steps[1..])
  }

  lemma {:induction false} StepsSnoc(j: Job, start: nat, a: seq<Step>, s: Step)
    requires StepsOk(j, start, a) && StepOk(j, start + Length(a), s)
    ensures StepsOk(j, start, a + [s]) && Length(a + [s]) == Length(a) + s.mlen
    decreases |a|
  {
    hide StepOk;
    if |a| == 0 {
      assert a + [s] == [s];
    } else {
      StepsSnoc(j, start + a[0].mlen, a[1..], s);
      assert (a + [s])[1..] == a[1..] + [s];
    }
  }

  /** The way to a position is as long as the position says, and all of it may be written. */
  lemma {:induction false} PathOk(j: Job, ip: nat, cells: seq<Cell>, pos: nat)
    requires Linked(cells, pos) && forall i :: 0 < i <= pos ==> CellOk(j, ip, i, cells[i])
    ensures StepsOk(j, ip, PathTo(cells, pos)) && Length(PathTo(cells, pos)) == pos
    decreases pos
  {
    hide StepOk;
    if pos > 0 {
      var c := cells[pos];
      assert CellOk(j, ip, pos, c);
      PathOk(j, ip, cells, pos - c.mlen);
      StepsSnoc(j, ip, PathTo(cells, pos - c.mlen), Step(c.mlen, c.off));
    }
  }

  /** The way chosen, turned around: walking forward takes its steps, all of which may be written. */
  method TurnAround(opt: array<Cell>, ghost j: Job, ghost ip: nat, cur: nat, best: Step, end: nat)
    requires Chosen(j, ip, opt, cur, best, end)
    modifies opt
    ensures Forward(opt[..], end) && StepsOk(j, ip, WalkFrom(opt[..], 0, end))
  {
    hide StepOk, WalkFrom;
    PathOk(j, ip, opt[..], cur);
    StepsSnoc(j, ip, PathTo(opt[..], cur), best);
    Reverse(opt, cur, best, end);
  }

  lemma WalkStep(j: Job, start: nat, cells: seq<Cell>, pos: nat, end: nat)
    requires Forward(cells, end) && pos < end && StepsOk(j, start, WalkFrom(cells, pos, end))
    ensures StepOk(j, start, Step(cells[pos].mlen, cells[pos].off))
    ensures StepsOk(j, start + cells[pos].mlen, WalkFrom(cells, pos + cells[pos].mlen, end))
  {
  }

  /** All recorded sequences in order. With `overflow`, the match of length `ml` at `ip` did not fit. */
  method EncodeWay(dst: array<byte>, j: Job, opt: array<Cell>, ip0: nat, end: nat, op0: nat, anchor0: nat,
                   ghost seqs0: seq<Sequence>)
    returns (overflow: bool, s: State, op: nat, anchor: nat, ghost seqs: seq<Sequence>)
    requires j.Valid() && j.Fits(dst) && op0 <= dst.Length && j.Progress(dst[..op0], seqs0, anchor0) && anchor0 <= ip0
    requires Forward(opt[..], end) && StepsOk(j, ip0, WalkFrom(opt[..], 0, end))
    modifies dst
    ensures op <= dst.Length && j.Progress(dst[..op], seqs, anchor) && anchor <= s.ip
    ensures !overflow ==> s.ip >= ip0 + end
    ensures overflow ==> j.limit != BC.NotLimited && j.Candidate(s.ip, s.ref, s.ml)
    ensures overflow && j.limit == BC.LimitedOutput ==> j.olimit < BC.CompressBound(|j.v| - j.s0)
  {
    hide BC.Progress, Job.Fits, Job.Candidate, StepsOk, WalkFrom;
    op, anchor, seqs := op0, anchor0, seqs0;
    var ip, rPos := ip0, 0;
    while rPos < end
      invariant ip == ip0 + rPos && anchor <= ip && op <= dst.Length && j.Progress(dst[..op], seqs, anchor)
      invariant Forward(opt[..], end) && StepsOk(j, ip, WalkFrom(opt[..], rPos, end))
    {
      var ml, offset := opt[rPos].mlen, opt[rPos].off;
      WalkStep(j, ip, opt[..], rPos, end);
      rPos := rPos + ml;
      if ml == 1 {
        ip := ip + 1;
      } else {
        ghost var q;
        overflow, op, q := EncodeCandidate(dst, j, op, anchor, ip, ip - offset, ml, seqs);
        if overflow { return true, State(ip, ip - offset, ml, 0, 0, 0, 0, 0, 0), op, anchor, seqs; }
        ip, anchor, seqs := ip + ml, ip + ml, seqs + [q];
      }
    }
    return false, State(ip, 0, 0, 0, 0, 0, 0, 0, 0), op, anchor, seqs;
  }

  // ---------------------------------------------------------------- the main loop

  /** From a first match: a way through the bytes that follow is chosen and written. */
  method EncodeBest(ctx: Context, j: Job, dst: array<byte>, opt: array<Cell>, ip: nat, first: Found, op0: nat,
                    anchor0: nat, ghost seqs0: seq<Sequence>, sufficientLen: nat, fullUpdate: bool, favorDecSpeed: bool)
    returns (overflow: bool, s: State, op: nat, anchor: nat, ghost seqs: seq<Sequence>)
    requires j.Valid() && j.Fits(dst) && op0 <= dst.Length && j.Progress(dst[..op0], seqs0, anchor0) && anchor0 <= ip
    requires ctx.Valid() && 0 <= Upcoming(ctx) <= ip && first.len >= MINMATCH && FoundOk(j, ip, first)
    requires opt.Length == OPT_NUM + TRAILING_LITERALS && (first.len <= sufficientLen ==> first.len < OPT_NUM)
    modifies dst, ctx`nextToUpdate, ctx.hashTable, ctx.chainTable, opt
    ensures op <= dst.Length && j.Progress(dst[..op], seqs, anchor) && anchor <= s.ip
    ensures ctx.Valid() && 0 <= Upcoming(ctx) <= Max(ip, j.Mflimit())
    ensures !overflow ==> s.ip > ip && Upcoming(ctx) <= s.ip
    ensures overflow ==> j.limit != BC.NotLimited && j.Candidate(s.ip, s.ref, s.ml)
    ensures overflow && j.limit == BC.LimitedOutput ==> j.olimit < BC.CompressBound(|j.v| - j.s0)
  {
    hide BC.Progress, Job.Fits, Filled, StepsOk, WalkFrom, Agree;
    op, anchor, seqs := op0, anchor0, seqs0;
    if first.len > sufficientLen {
      ghost var q;
      overflow, op, q := EncodeCandidate(dst, j, op, anchor, ip, ip - first.off, first.len, seqs);
      if overflow { return true, State(ip, ip - first.off, first.len, 0, 0, 0, 0, 0, 0), op, anchor, seqs; }
      return false, State(ip + first.len, 0, 0, 0, 0, 0, 0, 0, 0), op, ip + first.len, seqs + [q];
    }
    FirstPrices(opt, j, ip, ip - anchor, first);
    TrailingLiterals(opt, j, ip, first.len);
    var cur, best, end := ChooseWay(ctx, j, opt, ip, first.len, sufficientLen, fullUpdate, favorDecSpeed);
    TurnAround(opt, j, ip, cur, best, end);
    overflow, s, op, anchor, seqs := EncodeWay(dst, j, opt, ip, end, op, anchor, seqs);
  }

  /** The main loop, until no more matches are to be written. */
  method ParseOptimal(ctx: Context, j: Job, dst: array<byte>, sufficientLen0: nat, fullUpdate: bool,
                      favorDecSpeed: bool)
    returns (overflow: bool, s: State, op: nat, anchor: nat, ghost seqs: seq<Sequence>)
    requires j.Valid() && j.Fits(dst) && (j.limit == BC.FillOutput ==> j.olimit >= 1)
    requires ctx.Valid() && 0 <= Upcoming(ctx) <= j.s0
    modifies dst, ctx`nextToUpdate, ctx.hashTable, ctx.chainTable
    ensures ctx.Valid() && Upcoming(ctx) <= j.Mflimit() && op <= dst.Length && j.Progress(dst[..op], seqs, anchor)
    ensures overflow ==> j.limit != BC.NotLimited && anchor <= s.ip && j.Candidate(s.ip, s.ref, s.ml)
    ensures overflow && j.limit == BC.LimitedOutput ==> j.olimit < BC.CompressBound(|j.v| - j.s0)
  {
    hide BC.Progress, Job.Fits, Agree;
    var opt := new Cell[OPT_NUM + TRAILING_LITERALS](_ => Cell(0, 0, 0, 0));
    var sufficientLen := Min(sufficientLen0, OPT_NUM - 1);
    op, anchor, seqs := 0, j.s0, [];
    s, overflow := State(j.s0, 0, 0, 0, 0, 0, 0, 0, 0), false;
    BC.ProgressStarts(j.Fast(), dst[..0], j.limit, j.olimit);
    while s.ip <= j.Mflimit() && !overflow
      invariant op <= dst.Length && j.Progress(dst[..op], seqs, anchor) && anchor <= s.ip
      invariant ctx.Valid() && 0 <= Upcoming(ctx) <= j.Mflimit() && (!overflow ==> Upcoming(ctx) <= s.ip)
      invariant overflow ==> j.limit != BC.NotLimited && j.Candidate(s.ip, s.ref, s.ml)
      invariant overflow && j.limit == BC.LimitedOutput ==> j.olimit < BC.CompressBound(|j.v| - j.s0)
      decreases !overflow, |j.v| - s.ip
    {
      var first := FindLongerMatch(ctx, j, s.ip, MINMATCH - 1, favorDecSpeed);
      if first.len == 0 {
        s := s.(ip := s.ip + 1);
      } else {
        overflow, s, op, anchor, seqs :=
          EncodeBest(ctx, j, dst, opt, s.ip, first, op, anchor, seqs, sufficientLen, fullUpdate, favorDecSpeed);
      }
    }
  }

  /**
    `LZ4HC_compress_optimal`. Whatever the tables, the hash, the number of attempts and the prices: what is written is
    a block of the format for the input consumed, decodable after the prefix; unlimited output stays within the
    compress bound, limited output fails rather than exceed its budget, and fill mode consumes what fits.
  */
  method CompressOptimal(ctx: Context, j: Job, dst: array<byte>, sufficientLen: nat, fullUpdate: bool,
                         favorDecSpeed: bool)
    returns (result: nat, consumed: nat)
    requires j.s0 <= |j.v| && j.Fits(dst) && (j.limit == BC.FillOutput ==> j.olimit >= 1)
    requires ctx.Valid() && 0 <= Upcoming(ctx) <= j.s0
    modifies dst, ctx`nextToUpdate, ctx.hashTable, ctx.chainTable
    ensures ctx.Valid() && Upcoming(ctx) <= Max(old(Upcoming(ctx)), j.Mflimit())
    ensures result <= dst.Length && j.s0 + consumed <= |j.v|
    ensures result > 0 ==> Encodes(dst[..result], j.v[..j.s0], j.v[j.s0..j.s0 + consumed])
    ensures result > 0 && j.limit != BC.FillOutput ==> consumed == |j.v| - j.s0
    ensures if j.limit == BC.NotLimited then result <= BC.CompressBound(|j.v| - j.s0) else result <= j.olimit
    ensures result == 0 ==> j.limit == BC.LimitedOutput && j.olimit < BC.CompressBound(|j.v| - j.s0)
  {
    hide BC.Progress, Encodes, EmitLiterals, Job.Candidate;
    var op, anchor := 0, j.s0;
    ghost var seqs: seq<Sequence> := [];
    BC.ProgressStarts(j.Fast(), dst[..0], j.limit, j.olimit);
    if j.s0 <= j.Mflimit() {
      var overflow, s;
      overflow, s, op, anchor, seqs := ParseOptimal(ctx, j, dst, sufficientLen, fullUpdate, favorDecSpeed);
      if overflow {
        if j.limit != BC.FillOutput { return 0, 0; }
        op, anchor, seqs := FillTail(j, dst, s, op, anchor, seqs);
      }
    }
    result, consumed := Close(dst, op, j, anchor, seqs);
  }
}
