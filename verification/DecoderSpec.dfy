/**
  What `LZ4_decompress_generic` accepts and produces, as a function of the block alone.

  The decoder's output is described together with what precedes it: `out` is the external dictionary,
  then the prefix, then the bytes decoded so far. `SafeRun` takes the decoder's branches on this value;
  the lemmas below relate it to the reference meaning of a block (`Lz4Format.ExpandBlock`).
*/
module DecoderSpec {
  import opened Wrappers
  import opened Lz4Format

  /** One decoding: the block, the length of `out` at the end of the destination, how much of `out` is
      external dictionary, and whether decoding may stop early. */
  datatype Job = Job(src: Bytes, cap: nat, ext: nat, partialDecoding: bool)

  /** `Unspecified`: the block uses offset 0, for which the format gives no meaning. */
  datatype Outcome = Error | Done(out: Bytes) | Unspecified

  datatype LiteralResult = LitError | LitEnd(out: Bytes) | LitMore(out: Bytes, pos: nat)

  datatype MatchResult = MatchError | MatchUnspecified | MatchEnd(out: Bytes) | MatchMore(out: Bytes, pos: nat)

  /** The bytes of a long length starting at `pos`; no byte may stand at or after `limit`. */
  function ReadVar(b: Bytes, pos: nat, limit: int): (r: Option<(nat, nat)>)
    ensures r.Some? ==> pos < r.value.1 <= |b| && r.value.1 <= limit
    ensures r.Some? <==> ReadLen(b, pos).Some? && ReadLen(b, pos).value.1 <= limit
    ensures r.Some? ==> r == ReadLen(b, pos)
    decreases |b| - pos
  {
    if pos >= |b| || pos + 1 > limit then None
    else if b[pos] < 255 then Some((b[pos], pos + 1))
    else match ReadVar(b, pos + 1, limit)
      case None => None
      case Some((n, p)) => Some((n + 255, p))
  }

  function ReadNibbleVar(b: Bytes, pos: nat, nibble: nat, limit: int): (r: Option<(nat, nat)>)
    requires pos <= |b|
    ensures r.Some? ==> r == ReadNibbleLen(b, pos, nibble)
    ensures r.Some? && nibble >= 15 ==> r.value.1 <= limit
    ensures ReadNibbleLen(b, pos, nibble).Some? && ReadNibbleLen(b, pos, nibble).value.1 <= limit ==> r.Some?
    ensures nibble < 15 ==> r == Some((nibble, pos))
  {
    if nibble < 15 then Some((nibble, pos))
    else match ReadVar(b, pos, limit)
      case None => None
      case Some((n, p)) => Some((n + 15, p))
  }

  /** The two-stage shortcut is entered for short literal runs far from both ends. */
  predicate Shortcut(j: Job, ip: nat, out: Bytes)
    requires ip < |j.src|
  {
    j.src[ip] / 16 != 15 && ip + 1 < |j.src| - 16 && |out| <= j.cap - 32
  }

  function LiteralStage(j: Job, ip: nat, out: Bytes): (r: LiteralResult)
    requires ip < |j.src| && |out| <= j.cap
    ensures r.LitMore? ==> ip < r.pos && r.pos + 3 <= |j.src| && |r.out| <= j.cap
    ensures r.LitMore? && !j.partialDecoding ==> |r.out| + 12 <= j.cap
    ensures r.LitMore? && Shortcut(j, ip, out) ==> |r.out| + 18 <= j.cap
    ensures r.LitEnd? ==> |r.out| <= j.cap
  {
    var ll0 := j.src[ip] / 16;
    if Shortcut(j, ip, out) then LitMore(out + j.src[ip + 1..ip + 1 + ll0], ip + 1 + ll0)
    else
      match ReadNibbleVar(j.src, ip + 1, ll0, |j.src| - 15)
      case None => LitError
      case Some((ll, p)) =>
        if |out| + ll > j.cap - MFLIMIT || p + ll > |j.src| - (2 + 1 + LASTLITERALS) then
          if j.partialDecoding then
            var n := Min(Min(ll, |j.src| - p), j.cap - |out|);
            var o := out + j.src[p..p + n];
            if |o| == j.cap || p + n >= |j.src| - 2 then LitEnd(o) else LitMore(o, p + n)
          else if p + ll != |j.src| || |out| + ll > j.cap then LitError
          else LitEnd(out + j.src[p..])
        else LitMore(out + j.src[p..p + ll], p + ll)
  }

  function MatchStage(j: Job, pos: nat, out: Bytes, nibble: nat, shortcut: bool): (r: MatchResult)
    requires pos + 3 <= |j.src| && |out| <= j.cap
    requires shortcut ==> |out| + 18 <= j.cap
    ensures r.MatchMore? ==> pos < r.pos < |j.src| && |r.out| <= j.cap
    ensures r.MatchEnd? ==> |r.out| == j.cap
  {
    var offset := LE16(j.src, pos);
    if shortcut && nibble < 15 && offset >= 8 && |out| - offset >= j.ext then
      MatchMore(CopyMatch(out, offset, nibble + MINMATCH), pos + 2)
    else
      match ReadNibbleVar(j.src, pos + 2, nibble, |j.src| - LASTLITERALS + 1)
      case None => MatchError
      case Some((mc, p)) =>
        var ml := mc + MINMATCH;
        var room := j.cap - |out|;
        if offset > |out| then MatchError
        else if offset == 0 then MatchUnspecified
        else if |out| - offset < j.ext then
          if ml <= room - LASTLITERALS then MatchMore(CopyMatch(out, offset, ml), p)
          else if j.partialDecoding then MatchMore(CopyMatch(out, offset, Min(ml, room)), p)
          else MatchError
        else if j.partialDecoding && ml > room - 12 then
          if ml >= room then MatchEnd(CopyMatch(out, offset, room)) else MatchMore(CopyMatch(out, offset, ml), p)
        else if ml > room - LASTLITERALS then MatchError
        else MatchMore(CopyMatch(out, offset, ml), p)
  }

  function SafeRun(j: Job, ip: nat, out: Bytes): (r: Outcome)
    requires ip < |j.src| && |out| <= j.cap
    ensures r.Done? ==> |r.out| <= j.cap
    decreases |j.src| - ip
  {
    match LiteralStage(j, ip, out)
    case LitError => Error
    case LitEnd(o) => Done(o)
    case LitMore(o, p) =>
      match MatchStage(j, p, o, j.src[ip] % 16, Shortcut(j, ip, out))
      case MatchError => Error
      case MatchUnspecified => Unspecified
      case MatchEnd(o2) => Done(o2)
      case MatchMore(o2, p2) => SafeRun(j, p2, o2)
  }

  /** The whole decoder, with the special cases for an empty destination and an empty source. */
  function SafeDecode(src: Bytes, history: Bytes, ext: nat, capacity: nat, partialDecoding: bool): (r: Outcome)
    ensures r.Done? ==> |r.out| <= |history| + capacity
  {
    if capacity == 0 then
      if partialDecoding || src == [0] then Done(history) else Error
    else if |src| == 0 then Error
    else SafeRun(Job(src, |history| + capacity, ext, partialDecoding), 0, history)
  }

  // ---------------------------------------------------------------- soundness

  lemma LiteralStageSound(j: Job, ip: nat, out: Bytes) returns (ll: nat, p1: nat)
    requires ip < |j.src| && |out| <= j.cap && !j.partialDecoding
    requires !LiteralStage(j, ip, out).LitError?
    ensures ReadNibbleLen(j.src, ip + 1, j.src[ip] / 16) == Some((ll, p1)) && p1 + ll <= |j.src|
    ensures match LiteralStage(j, ip, out)
      case LitEnd(o) => p1 + ll == |j.src| && o == out + j.src[p1..]
      case LitMore(o, p) => p == p1 + ll && o == out + j.src[p1..p]
  {
    hide ReadNibbleLen;
    var v := ReadNibbleLen(j.src, ip + 1, j.src[ip] / 16).value;
    ll, p1 := v.0, v.1;
  }

  lemma MatchStageSound(j: Job, pos: nat, out: Bytes, nibble: nat, shortcut: bool) returns (mc: nat, p: nat)
    requires pos + 3 <= |j.src| && |out| <= j.cap && !j.partialDecoding
    requires shortcut ==> |out| + 18 <= j.cap
    requires MatchStage(j, pos, out, nibble, shortcut).MatchMore?
    ensures ReadNibbleLen(j.src, pos + 2, nibble) == Some((mc, p))
    ensures var r := MatchStage(j, pos, out, nibble, shortcut);
      r.pos == p && 1 <= LE16(j.src, pos) <= |out| && r.out == CopyMatch(out, LE16(j.src, pos), mc + MINMATCH)
  {
    hide CopyMatch, LE16, ReadNibbleLen;
    var v := ReadNibbleLen(j.src, pos + 2, nibble).value;
    mc, p := v.0, v.1;
  }

  /** An accepted sequence is a sequence of the format, and its effect is the reference one. */
  lemma StepSound(j: Job, ip: nat, out: Bytes)
    requires ip < |j.src| && |out| <= j.cap && !j.partialDecoding && LiteralStage(j, ip, out).LitMore?
    requires var l := LiteralStage(j, ip, out);
      MatchStage(j, l.pos, l.out, j.src[ip] % 16, Shortcut(j, ip, out)).MatchMore?
    ensures var l := LiteralStage(j, ip, out);
      var r := MatchStage(j, l.pos, l.out, j.src[ip] % 16, Shortcut(j, ip, out));
      var h := ReadHead(j.src, ip);
      && h.Next? && h.pos == r.pos
      && 1 <= h.s.offset <= |out + h.s.lits|
      && r.out == CopyMatch(out + h.s.lits, h.s.offset, h.s.mlen)
  {
    hide LiteralStage, MatchStage, CopyMatch, LE16, ReadNibbleLen;
    var l := LiteralStage(j, ip, out);
    var ll, p1 := LiteralStageSound(j, ip, out);
    var mc, p := MatchStageSound(j, l.pos, l.out, j.src[ip] % 16, Shortcut(j, ip, out));
  }

  /** Soundness of full decoding: an accepted block parses, every offset it uses stays within what was
      declared, and the bytes produced are the reference meaning of the block. */
  lemma {:induction false} SafeRunSound(j: Job, ip: nat, out: Bytes)
    requires ip < |j.src| && |out| <= j.cap && !j.partialDecoding
    requires SafeRun(j, ip, out).Done?
    ensures Parse(j.src, ip).Some?
    ensures ExpandBlock(out, Parse(j.src, ip).value) == Some(SafeRun(j, ip, out).out)
    decreases |j.src| - ip
  {
    hide LiteralStage, MatchStage, CopyMatch, ReadNibbleLen;
    match LiteralStage(j, ip, out)
    case LitEnd(o) =>
      var ll, p1 := LiteralStageSound(j, ip, out);
      assert ReadHead(j.src, ip) == Last(j.src[p1..]);
    case LitMore(o, p) =>
      match MatchStage(j, p, o, j.src[ip] % 16, Shortcut(j, ip, out)) {
        case MatchMore(o2, p2) =>
          StepSound(j, ip, out);
          SafeRunSound(j, p2, o2);
          ParseNext(j.src, ip, out);
        case MatchEnd(o2) => MatchEndIsPartial(j, p, o, j.src[ip] % 16, Shortcut(j, ip, out));
      }
  }

  lemma MatchEndIsPartial(j: Job, pos: nat, out: Bytes, nibble: nat, shortcut: bool)
    requires pos + 3 <= |j.src| && |out| <= j.cap && (shortcut ==> |out| + 18 <= j.cap)
    requires MatchStage(j, pos, out, nibble, shortcut).MatchEnd?
    ensures j.partialDecoding
  {
    hide CopyMatch, LE16, ReadNibbleLen;
  }

  /** Parsing and expanding one sequence further. */
  lemma ParseNext(b: Bytes, ip: nat, out: Bytes)
    requires ip < |b| && ReadHead(b, ip).Next?
    requires var h := ReadHead(b, ip);
      && 1 <= h.s.offset <= |out| + |h.s.lits|
      && Parse(b, h.pos).Some?
    ensures Parse(b, ip).Some?
    ensures var h := ReadHead(b, ip);
      && Parse(b, ip).value.seqs == [h.s] + Parse(b, h.pos).value.seqs
      && Parse(b, ip).value.last == Parse(b, h.pos).value.last
      && ExpandBlock(out, Parse(b, ip).value)
         == ExpandBlock(CopyMatch(out + h.s.lits, h.s.offset, h.s.mlen), Parse(b, h.pos).value)
  {
    hide ReadHead;
    var h := ReadHead(b, ip);
    var rest := Parse(b, h.pos).value;
    assert ([h.s] + rest.seqs)[1..] == rest.seqs;
  }

  // ---------------------------------------------------------------- completeness and partial decoding

  lemma {:induction false} CopyMatchPrefix(out: Bytes, offset: nat, n: nat, k: nat)
    requires 1 <= offset <= |out| && k <= n
    ensures CopyMatch(out, offset, k) == CopyMatch(out, offset, n)[..|out| + k]
  {
    var r := CopyMatch(out, offset, n);
    CopyMatchPeriodic(out, offset, n);
    var q := r[..|out| + k];
    assert q[..|out|] == r[..|out|];
    CopyMatchUnique(out, offset, k, q);
  }

  /** A block whose last run has five literals still has six bytes to read. */
  lemma {:induction false} BytesLeft(b: Bytes, pos: nat)
    requires Parse(b, pos).Some? && |Parse(b, pos).value.last| >= LASTLITERALS
    ensures pos + 6 <= |b|
    decreases |b| - pos
  {
    hide ReadNibbleLen;
    match ReadHead(b, pos)
    case Last(lits) =>
    case Next(s, p) => BytesLeft(b, p);
  }

  /** Under the end rules every match leaves five bytes of output after it and starts twelve before the end. */
  lemma {:induction false} RoomAfter(out: Bytes, block: Block)
    requires |block.seqs| > 0 && ValidSequences(block.seqs) && EndRules(block) && ExpandBlock(out, block).Some?
    ensures var s, o := block.seqs[0], ExpandBlock(out, block).value;
      && |out| + |s.lits| + MFLIMIT <= |o|
      && |out| + |s.lits| + s.mlen + LASTLITERALS <= |o|
    decreases |block.seqs|
  {
    var s := block.seqs[0];
    var rest := Block(block.seqs[1..], block.last);
    var full := CopyMatch(out + s.lits, s.offset, s.mlen);
    assert ValidSequence(s);
    assert ExpandBlock(full, rest) == ExpandBlock(out, block);
    if |rest.seqs| > 0 {
      assert rest.seqs[|rest.seqs| - 1] == block.seqs[|block.seqs| - 1];
      RoomAfter(full, rest);
    }
  }

  lemma LastRunAccepted(j: Job, ip: nat, out: Bytes)
    requires ip < |j.src| && |out| <= j.cap && ReadHead(j.src, ip).Last?
    requires j.partialDecoding || |out| + |ReadHead(j.src, ip).lits| <= j.cap
    ensures var o := out + ReadHead(j.src, ip).lits;
      LiteralStage(j, ip, out) == LitEnd(o[..Min(j.cap, |o|)])
  {
    hide ReadNibbleLen, ReadNibbleVar;
    var v := ReadNibbleLen(j.src, ip + 1, j.src[ip] / 16).value;
    var ll, p := v.0, v.1;
    LongRun(j.src, ip);
    var o := out + j.src[p..];
    var n := Min(Min(ll, |j.src| - p), j.cap - |out|);
    assert out + j.src[p..p + n] == o[..Min(j.cap, |o|)];
  }

  /** A length written with extension bytes is at least fifteen. */
  lemma LongRun(b: Bytes, ip: nat)
    requires ip < |b| && ReadNibbleLen(b, ip + 1, b[ip] / 16).Some?
    ensures b[ip] / 16 == 15 ==> ReadNibbleLen(b, ip + 1, b[ip] / 16).value.0 >= 15
    ensures b[ip] / 16 <= 15
  {
  }

  lemma LiteralsAccepted(j: Job, ip: nat, out: Bytes)
    requires ip < |j.src| && |out| <= j.cap && ReadHead(j.src, ip).Next? && ReadHead(j.src, ip).pos + 6 <= |j.src|
    requires j.partialDecoding || |out| + |ReadHead(j.src, ip).s.lits| + MFLIMIT <= j.cap
    ensures var h := ReadHead(j.src, ip);
      var o := out + h.s.lits;
      var v := ReadNibbleLen(j.src, ip + 1, j.src[ip] / 16).value;
      if |o| >= j.cap then LiteralStage(j, ip, out) == LitEnd(o[..j.cap])
      else LiteralStage(j, ip, out) == LitMore(o, v.1 + v.0)
  {
    hide ReadNibbleLen, ReadNibbleVar;
    var v := ReadNibbleLen(j.src, ip + 1, j.src[ip] / 16).value;
    var ll, p := v.0, v.1;
    LongRun(j.src, ip);
    var o := out + j.src[p..p + ll];
    var n := Min(Min(ll, |j.src| - p), j.cap - |out|);
    assert |o| >= j.cap ==> out + j.src[p..p + n] == o[..j.cap];
  }

  lemma MatchAccepted(j: Job, pos: nat, out: Bytes, nibble: nat, shortcut: bool, mc: nat, p: nat)
    requires pos + 3 <= |j.src| && |out| < j.cap && (shortcut ==> |out| + 18 <= j.cap)
    requires ReadNibbleLen(j.src, pos + 2, nibble) == Some((mc, p)) && p + 6 <= |j.src|
    requires 1 <= LE16(j.src, pos) <= |out|
    requires j.partialDecoding || |out| + mc + MINMATCH + LASTLITERALS <= j.cap
    ensures var c := CopyMatch(out, LE16(j.src, pos), Min(mc + MINMATCH, j.cap - |out|));
      var r := MatchStage(j, pos, out, nibble, shortcut);
      r == MatchMore(c, p) || (r == MatchEnd(c) && |c| == j.cap)
  {
    hide CopyMatch, LE16, ReadNibbleLen, ReadNibbleVar;
  }

  /** With the destination full, partial decoding stops at the next sequence and adds nothing. */
  lemma FullDestination(j: Job, ip: nat, out: Bytes)
    requires ip < |j.src| && |out| == j.cap && j.partialDecoding && !ReadHead(j.src, ip).Bad?
    ensures LiteralStage(j, ip, out) == LitEnd(out)
  {
    hide ReadNibbleLen, ReadNibbleVar;
    var v := ReadNibbleLen(j.src, ip + 1, j.src[ip] / 16).value;
    LongRun(j.src, ip);
    assert out + j.src[v.1..v.1 + 0] == out;
  }

  /** One sequence of such a block: the stages either go on with its exact effect, or stop (now or at the
      next sequence) because the destination is full. */
  lemma StepAccepted(j: Job, ip: nat, out: Bytes) returns (c: Bytes)
    requires ip < |j.src| && |out| <= j.cap && ReadHead(j.src, ip).Next?
    requires var h := ReadHead(j.src, ip);
      && h.pos + 6 <= |j.src| && !ReadHead(j.src, h.pos).Bad?
      && 1 <= h.s.offset <= |out| + |h.s.lits| < j.cap
      && (j.partialDecoding || |out| + |h.s.lits| + Max(h.s.mlen + LASTLITERALS, MFLIMIT) <= j.cap)
    ensures var h := ReadHead(j.src, ip);
      var full := CopyMatch(out + h.s.lits, h.s.offset, h.s.mlen);
      && c == full[..Min(j.cap, |full|)]
      && if |c| == j.cap then SafeRun(j, ip, out) == Done(c) else SafeRun(j, ip, out) == SafeRun(j, h.pos, c)
  {
    hide LiteralStage, MatchStage, CopyMatch, ReadNibbleLen, LE16;
    var h := ReadHead(j.src, ip);
    var s, p2 := h.s, h.pos;
    var out1 := out + s.lits;
    LiteralsAccepted(j, ip, out);
    var v := ReadNibbleLen(j.src, ip + 1, j.src[ip] / 16).value;
    MatchAccepted(j, v.1 + v.0, out1, j.src[ip] % 16, Shortcut(j, ip, out), s.mlen - MINMATCH, p2);
    var n := Min(s.mlen, j.cap - |out1|);
    CopyMatchPrefix(out1, s.offset, s.mlen, n);
    c := CopyMatch(out1, s.offset, n);
    if |c| == j.cap && j.partialDecoding {
      FullDestination(j, p2, c);
    }
  }

  /**
    Every block that obeys the end rules is decoded: in full when the destination is large enough, and
    with partial decoding up to any smaller size, which yields exactly the front of the full result.
  */
  lemma {:induction false} SafeRunComplete(j: Job, ip: nat, out: Bytes)
    requires ip < |j.src| && |out| <= j.cap
    requires Parse(j.src, ip).Some? && EndRules(Parse(j.src, ip).value)
    requires ExpandBlock(out, Parse(j.src, ip).value).Some?
    requires j.partialDecoding || |ExpandBlock(out, Parse(j.src, ip).value).value| <= j.cap
    ensures var o := ExpandBlock(out, Parse(j.src, ip).value).value;
      SafeRun(j, ip, out) == Done(o[..Min(j.cap, |o|)])
    decreases |j.src| - ip
  {
    hide LiteralStage, MatchStage, CopyMatch, ReadHead, SafeRun;
    var block := Parse(j.src, ip).value;
    var o := ExpandBlock(out, block).value;
    match ReadHead(j.src, ip)
    case Last(lits) =>
      LastRunAccepted(j, ip, out);
      SafeRunStops(j, ip, out);
    case Next(s, p2) =>
      var rest := Parse(j.src, p2).value;
      assert block.seqs[1..] == rest.seqs;
      var nibble := EmitOfParse(j.src, ip);
      assert |rest.seqs| > 0 ==> rest.seqs[|rest.seqs| - 1] == block.seqs[|block.seqs| - 1];
      RoomAfter(out, block);
      BytesLeft(j.src, p2);
      var out1 := out + s.lits;
      var full := CopyMatch(out1, s.offset, s.mlen);
      ParseNext(j.src, ip, out);
      ExpandExtends(full, rest.seqs);
      if |out1| >= j.cap {
        LiteralsAccepted(j, ip, out);
        SafeRunStops(j, ip, out);
        CopyMatchPeriodic(out1, s.offset, s.mlen);
        PrefixOfPrefix(o, full, out1, j.cap);
      } else {
        var c := StepAccepted(j, ip, out);
        if |c| == j.cap {
          PrefixOfPrefix(o, full, full, j.cap);
        } else {
          assert c == full;
          SafeRunComplete(j, p2, full);
        }
      }
  }

  lemma SafeRunStops(j: Job, ip: nat, out: Bytes)
    requires ip < |j.src| && |out| <= j.cap && LiteralStage(j, ip, out).LitEnd?
    ensures SafeRun(j, ip, out) == Done(LiteralStage(j, ip, out).out)
  {
    hide LiteralStage, MatchStage;
  }

  lemma PrefixOfPrefix(o: Bytes, full: Bytes, out: Bytes, n: nat)
    requires |full| <= |o| && o[..|full|] == full && |out| <= |full| && full[..|out|] == out && n <= |out|
    ensures o[..n] == full[..n] == out[..n]
  {
    assert o[..n] == o[..|full|][..n];
    assert full[..n] == full[..|out|][..n];
  }

  /** Valid blocks are decoded, whatever the mode: the result does not depend on how much of the history
      is external dictionary, and a partial decoding is the front of the full one. */
  lemma SafeDecodeOfEncodes(b: Bytes, history: Bytes, content: Bytes, ext: nat, capacity: nat, partialDecoding: bool)
    requires Encodes(b, history, content)
    requires partialDecoding || |content| <= capacity
    requires partialDecoding || capacity > 0 || b == [0]
    ensures SafeDecode(b, history, ext, capacity, partialDecoding)
      == Done(history + content[..Min(capacity, |content|)])
  {
    hide SafeRun, Parse;
    if capacity == 0 {
      assert history + content[..0] == history;
    } else {
      var j := Job(b, |history| + capacity, ext, partialDecoding);
      assert |b| > 0 by { ParseNonEmpty(b); }
      SafeRunComplete(j, 0, history);
      var o := history + content;
      assert o[..Min(j.cap, |o|)] == history + content[..Min(capacity, |content|)];
    }
  }

  lemma ParseNonEmpty(b: Bytes)
    requires Parse(b, 0).Some?
    ensures |b| > 0
  {
  }

  /** What full decoding accepts is decoded as the reference decoder would. */
  lemma SafeDecodeSound(b: Bytes, history: Bytes, ext: nat, capacity: nat)
    requires SafeDecode(b, history, ext, capacity, false).Done?
    ensures Decode(history, b).Some?
    ensures SafeDecode(b, history, ext, capacity, false).out == history + Decode(history, b).value
  {
    hide SafeRun;
    if capacity == 0 {
      assert Parse([0], 0) == Some(Block([], [])) by { assert [0 as byte][1..] == []; }
      assert history + [] == history;
    } else {
      SafeRunSound(Job(b, |history| + capacity, ext, false), 0, history);
    }
  }

  // ---------------------------------------------------------------- how far back anything is read

  /** Two outputs of the same length that may differ only more than 65535 bytes before position `h`. */
  ghost predicate Alike(a: Bytes, b: Bytes, h: nat) {
    h <= |a| == |b| && forall i :: Max(0, h - DISTANCE_MAX) <= i < |a| ==> a[i] == b[i]
  }

  ghost predicate AlikeOutcome(x: Outcome, y: Outcome, h: nat) {
    match x
    case Error => y == Error
    case Unspecified => y == Unspecified
    case Done(a) => y.Done? && Alike(a, y.out, h)
  }

  lemma {:induction false} CopyMatchAlike(a: Bytes, b: Bytes, h: nat, offset: nat, n: nat)
    requires Alike(a, b, h) && 1 <= offset <= |a| && offset <= DISTANCE_MAX
    ensures Alike(CopyMatch(a, offset, n), CopyMatch(b, offset, n), h)
    decreases n
  {
    if n > 0 { CopyMatchAlike(a + [a[|a| - offset]], b + [b[|b| - offset]], h, offset, n - 1); }
  }

  lemma LiteralStageAlike(j: Job, ip: nat, a: Bytes, b: Bytes, h: nat)
    requires ip < |j.src| && |a| <= j.cap && Alike(a, b, h)
    ensures Shortcut(j, ip, a) == Shortcut(j, ip, b)
    ensures match LiteralStage(j, ip, a)
      case LitError => LiteralStage(j, ip, b).LitError?
      case LitEnd(o) => LiteralStage(j, ip, b).LitEnd? && Alike(o, LiteralStage(j, ip, b).out, h)
      case LitMore(o, p) => var r := LiteralStage(j, ip, b); r.LitMore? && r.pos == p && Alike(o, r.out, h)
  {
    hide ReadNibbleVar;
  }

  lemma MatchStageAlike(j: Job, pos: nat, a: Bytes, b: Bytes, h: nat, nibble: nat, shortcut: bool)
    requires pos + 3 <= |j.src| && |a| <= j.cap && Alike(a, b, h) && (shortcut ==> |a| + 18 <= j.cap)
    ensures var r := MatchStage(j, pos, b, nibble, shortcut);
      match MatchStage(j, pos, a, nibble, shortcut)
      case MatchError => r.MatchError?
      case MatchUnspecified => r.MatchUnspecified?
      case MatchEnd(o) => r.MatchEnd? && Alike(o, r.out, h)
      case MatchMore(o, p) => r.MatchMore? && r.pos == p && Alike(o, r.out, h)
  {
    hide ReadNibbleVar, CopyMatch, LE16, Alike;
    assert |a| == |b| by { AlikeLength(a, b, h); }
    var offset := LE16(j.src, pos);
    if 1 <= offset <= |a| {
      CopyMatchAlike(a, b, h, offset, nibble + MINMATCH);
      CopyMatchAlike(a, b, h, offset, j.cap - |a|);
      var v := ReadNibbleVar(j.src, pos + 2, nibble, |j.src| - LASTLITERALS + 1);
      if v.Some? {
        CopyMatchAlike(a, b, h, offset, v.value.0 + MINMATCH);
        CopyMatchAlike(a, b, h, offset, Min(v.value.0 + MINMATCH, j.cap - |a|));
      }
    }
  }

  lemma AlikeLength(a: Bytes, b: Bytes, h: nat)
    requires Alike(a, b, h)
    ensures |a| == |b|
  {
  }

  lemma {:induction false} SafeRunAlike(j: Job, ip: nat, a: Bytes, b: Bytes, h: nat)
    requires ip < |j.src| && |a| <= j.cap && |b| <= j.cap && Alike(a, b, h)
    ensures AlikeOutcome(SafeRun(j, ip, a), SafeRun(j, ip, b), h)
    decreases |j.src| - ip
  {
    hide LiteralStage, MatchStage, Alike;
    LiteralStageAlike(j, ip, a, b, h);
    match LiteralStage(j, ip, a)
    case LitError =>
    case LitEnd(o) =>
    case LitMore(o, p) =>
      var nibble, shortcut := j.src[ip] % 16, Shortcut(j, ip, a);
      var o' := LiteralStage(j, ip, b).out;
      MatchStageAlike(j, p, o, o', h, nibble, shortcut);
      match MatchStage(j, p, o, nibble, shortcut) {
        case MatchMore(o2, p2) => SafeRunAlike(j, p2, o2, MatchStage(j, p, o', nibble, shortcut).out, h);
        case MatchError =>
        case MatchUnspecified =>
        case MatchEnd(o2) =>
      }
  }

  /** No byte further back than 65535 is looked at: on any source, valid or not, histories that agree on their last
      65535 bytes give the same result, so that the front of a dictionary may be overwritten while it is in use. */
  lemma SafeDecodeAlike(src: Bytes, a: Bytes, b: Bytes, ext: nat, capacity: nat, partialDecoding: bool)
    requires Alike(a, b, |a|)
    ensures AlikeOutcome(SafeDecode(src, a, ext, capacity, partialDecoding),
                         SafeDecode(src, b, ext, capacity, partialDecoding), |a|)
  {
    hide SafeRun;
    if capacity > 0 && |src| > 0 {
      SafeRunAlike(Job(src, |a| + capacity, ext, partialDecoding), 0, a, b, |a|);
    }
  }
}
