/**
  The LZ4 block format: the reference meaning of a block.

  A block is a list of sequences (literals, then a match) closed by a run of literals.
  `Parse` reads that list from bytes, `EmitBlock` writes it, and `ExpandBlock` gives its meaning:
  literals are appended, matches are copied one byte at a time out of what precedes them.
*/
module Lz4Format {
  import opened Wrappers

  type byte = x: int | 0 <= x < 256
  type Bytes = seq<byte>

  const MINMATCH := 4
  const LASTLITERALS := 5
  const MFLIMIT := 12
  const RUN_MASK := 15
  const ML_MASK := 15
  const DISTANCE_MAX := 65535
  const KB64 := 65536
  const MAX_INPUT_SIZE := 0x7E000000

  function Min(a: int, b: int): int { if a < b then a else b }

  function Max(a: int, b: int): int { if a < b then b else a }

  /** A literal run followed by a match of `mlen` bytes found `offset` bytes back. */
  datatype Sequence = Sequence(lits: Bytes, offset: nat, mlen: nat)

  datatype Block = Block(seqs: seq<Sequence>, last: Bytes)

  predicate ValidSequence(s: Sequence) {
    0 <= s.offset <= DISTANCE_MAX && s.mlen >= MINMATCH
  }

  predicate ValidSequences(seqs: seq<Sequence>) {
    forall i :: 0 <= i < |seqs| ==> ValidSequence(seqs[i])
  }

  // ---------------------------------------------------------------- meaning

  /** Byte-by-byte match copy; the copied bytes may themselves be copied again. */
  function CopyMatch(out: Bytes, offset: nat, n: nat): (r: Bytes)
    requires 1 <= offset <= |out|
    ensures |r| == |out| + n
    decreases n
  {
    if n == 0 then out else CopyMatch(out + [out[|out| - offset]], offset, n - 1)
  }

  /** `out` is everything produced so far, preceded by the history the block may refer to. */
  function Expand(out: Bytes, seqs: seq<Sequence>): Option<Bytes>
    decreases |seqs|
  {
    if |seqs| == 0 then Some(out)
    else
      var s := seqs[0];
      var withLits := out + s.lits;
      if s.offset == 0 || s.offset > |withLits| then None
      else Expand(CopyMatch(withLits, s.offset, s.mlen), seqs[1..])
  }

  function ExpandBlock(history: Bytes, block: Block): Option<Bytes> {
    match Expand(history, block.seqs)
    case None => None
    case Some(out) => Some(out + block.last)
  }

  /** The parsing restrictions on the end of a block: the last five bytes are literals and the last
      match starts at least twelve bytes before the end. */
  predicate EndRules(block: Block) {
    |block.seqs| > 0 ==>
      && |block.last| >= LASTLITERALS
      && block.seqs[|block.seqs| - 1].mlen + |block.last| >= MFLIMIT
  }

  // ---------------------------------------------------------------- writing

  /** A length above the nibble: bytes of 255 closed by a smaller one. */
  function LenBytes(n: nat): (r: Bytes)
    ensures |r| == n / 255 + 1
  {
    if n < 255 then [n] else [255] + LenBytes(n - 255)
  }

  function LenExt(n: nat): (r: Bytes)
    ensures |r| == (n + 240) / 255
  {
    if n < 15 then [] else LenBytes(n - 15)
  }

  function Token(ll: nat, mc: nat): byte {
    16 * Min(ll, 15) + Min(mc, 15)
  }

  function EmitLiterals(lits: Bytes, mc: nat): Bytes {
    [Token(|lits|, mc)] + LenExt(|lits|) + lits
  }

  function EmitMatch(offset: nat, mc: nat): Bytes
    requires offset <= DISTANCE_MAX
  {
    [offset % 256, offset / 256] + LenExt(mc)
  }

  function EmitSequence(s: Sequence): Bytes
    requires ValidSequence(s)
  {
    EmitLiterals(s.lits, s.mlen - MINMATCH) + EmitMatch(s.offset, s.mlen - MINMATCH)
  }

  function EmitSequences(seqs: seq<Sequence>): Bytes
    requires ValidSequences(seqs)
    decreases |seqs|
  {
    if |seqs| == 0 then [] else EmitSequence(seqs[0]) + EmitSequences(seqs[1..])
  }

  /** `nibble` is the unused low half of the final token. */
  function EmitBlock(block: Block, nibble: nat): Bytes
    requires ValidSequences(block.seqs) && nibble < 16
  {
    EmitSequences(block.seqs) + EmitLiterals(block.last, nibble)
  }

  // ---------------------------------------------------------------- reading

  /** The length written at `pos` and the position after it. */
  function ReadLen(b: Bytes, pos: nat): (r: Option<(nat, nat)>)
    ensures r.Some? ==> pos < r.value.1 <= |b|
    decreases |b| - pos
  {
    if pos >= |b| then None
    else if b[pos] < 255 then Some((b[pos], pos + 1))
    else match ReadLen(b, pos + 1)
      case None => None
      case Some((n, p)) => Some((n + 255, p))
  }

  function ReadNibbleLen(b: Bytes, pos: nat, nibble: nat): (r: Option<(nat, nat)>)
    requires pos <= |b|
    ensures r.Some? ==> pos <= r.value.1 <= |b|
    ensures nibble < 15 ==> r == Some((nibble, pos))
  {
    if nibble < 15 then Some((nibble, pos))
    else match ReadLen(b, pos)
      case None => None
      case Some((n, p)) => Some((n + 15, p))
  }

  function LE16(b: Bytes, pos: nat): (r: nat)
    requires pos + 2 <= |b|
    ensures r <= DISTANCE_MAX
  {
    b[pos] as int + 256 * b[pos + 1] as int
  }

  /** What stands at one position of a block: the closing literals, or a sequence and where the next
      one starts. */
  datatype Head = Bad | Last(lits: Bytes) | Next(s: Sequence, pos: nat)

  function ReadHead(b: Bytes, pos: nat): (h: Head)
    requires pos < |b|
    ensures h.Next? ==> pos < h.pos <= |b| && ValidSequence(h.s)
  {
    match ReadNibbleLen(b, pos + 1, b[pos] / 16)
    case None => Bad
    case Some((ll, p1)) =>
      if p1 + ll > |b| then Bad
      else if p1 + ll == |b| then Last(b[p1..])
      else if p1 + ll + 2 > |b| then Bad
      else
        match ReadNibbleLen(b, p1 + ll + 2, b[pos] % 16)
        case None => Bad
        case Some((mc, p2)) => Next(Sequence(b[p1..p1 + ll], LE16(b, p1 + ll), mc + MINMATCH), p2)
  }

  function Parse(b: Bytes, pos: nat): Option<Block>
    decreases |b| - pos
  {
    if pos >= |b| then None
    else
      match ReadHead(b, pos)
      case Bad => None
      case Last(lits) => Some(Block([], lits))
      case Next(s, p) =>
        match Parse(b, p)
        case None => None
        case Some(rest) => Some(Block([s] + rest.seqs, rest.last))
  }

  // ---------------------------------------------------------------- lemmas on reading back

  /** `x` is written in `b` at `pos`. */
  ghost predicate At(b: Bytes, pos: nat, x: Bytes) {
    pos + |x| <= |b| && b[pos..pos + |x|] == x
  }

  lemma AtConcat(b: Bytes, pos: nat, x: Bytes, y: Bytes)
    ensures At(b, pos, x + y) <==> At(b, pos, x) && At(b, pos + |x|, y)
  {
    if At(b, pos, x + y) {
      var xy := b[pos..pos + |x| + |y|];
      assert x == xy[..|x|] == b[pos..pos + |x|];
      assert y == xy[|x|..] == b[pos + |x|..pos + |x| + |y|];
    }
    if At(b, pos, x) && At(b, pos + |x|, y) {
      assert b[pos..pos + |x| + |y|] == b[pos..pos + |x|] + b[pos + |x|..pos + |x| + |y|];
    }
  }

  // Slices of slices, which the proofs about buffers keep meeting.

  /** The pieces one after the other. */
  function Concat(pieces: seq<Bytes>): Bytes {
    if |pieces| == 0 then [] else Concat(pieces[..|pieces| - 1]) + pieces[|pieces| - 1]
  }

  lemma Assoc(a: Bytes, b: Bytes, c: Bytes)
    ensures a + b + c == a + (b + c)
  {
  }

  lemma SubSlice(a: Bytes, i: nat, j: nat, e: nat)
    requires i <= j <= e <= |a|
    ensures a[i..e][j - i..] == a[j..e]
  {
  }

  lemma SliceOfSlice(b: Bytes, p: nat, q: nat, i: nat, j: nat)
    requires p <= q <= |b| && i <= j <= q - p
    ensures b[p..q][i..j] == b[p + i..p + j]
  {
    var y := b[p..q];
    assert y[..j] == b[p..p + j];
    assert y[i..j] == y[..j][i..];
    SubSlice(b, p, p + i, p + j);
  }

  lemma SliceOfAt(b: Bytes, p: nat, x: Bytes, i: nat, n: nat)
    requires At(b, p, x) && i + n <= |x|
    ensures b[p + i..p + i + n] == x[i..i + n]
  {
    SliceOfSlice(b, p, p + |x|, i, i + n);
  }

  lemma SliceJoin(b: Bytes, i: nat, j: nat, k: nat)
    requires i <= j <= k <= |b|
    ensures b[i..k] == b[i..j] + b[j..k]
  {
  }

  lemma AtFirst(b: Bytes, pos: nat, x: Bytes)
    requires At(b, pos, x) && |x| > 0
    ensures pos < |b| && b[pos] == x[0]
  {
    assert b[pos..pos + |x|][0] == b[pos];
  }

  lemma {:induction false} ReadLenBytes(b: Bytes, pos: nat, n: nat)
    requires At(b, pos, LenBytes(n))
    ensures ReadLen(b, pos) == Some((n, pos + |LenBytes(n)|))
    decreases n
  {
    AtFirst(b, pos, LenBytes(n));
    if n >= 255 {
      AtConcat(b, pos, [255], LenBytes(n - 255));
      ReadLenBytes(b, pos + 1, n - 255);
    }
  }

  lemma ReadLenExt(b: Bytes, pos: nat, n: nat)
    requires At(b, pos, LenExt(n))
    ensures ReadNibbleLen(b, pos, Min(n, 15)) == Some((n, pos + |LenExt(n)|))
  {
    if n >= 15 {
      ReadLenBytes(b, pos, n - 15);
    }
  }

  /** A literal run written at `pos` is read back, whatever follows it. */
  lemma ReadLiterals(b: Bytes, pos: nat, lits: Bytes, mc: nat)
    requires At(b, pos, EmitLiterals(lits, mc))
    ensures pos < |b| && b[pos] / 16 == Min(|lits|, 15) && b[pos] % 16 == Min(mc, 15)
    ensures var p := pos + 1 + |LenExt(|lits|)|;
      && p + |lits| == pos + |EmitLiterals(lits, mc)|
      && ReadNibbleLen(b, pos + 1, b[pos] / 16) == Some((|lits|, p))
      && At(b, p, lits)
  {
    hide Token, LenExt, ReadNibbleLen, At;
    AtThree(b, pos, [Token(|lits|, mc)], LenExt(|lits|), lits);
    TokenRead(b, pos, |lits|, mc);
    ReadLenExt(b, pos + 1, |lits|);
  }

  lemma AtThree(b: Bytes, pos: nat, x: Bytes, y: Bytes, z: Bytes)
    requires At(b, pos, x + y + z)
    ensures At(b, pos, x) && At(b, pos + |x|, y) && At(b, pos + |x| + |y|, z)
    ensures pos + |x| + |y| + |z| <= |b|
  {
    hide At;
    AtConcat(b, pos, x + y, z);
    AtConcat(b, pos, x, y);
    AtLength(b, pos + |x| + |y|, z);
  }

  lemma AtLength(b: Bytes, pos: nat, x: Bytes)
    requires At(b, pos, x)
    ensures pos + |x| <= |b|
  {
  }

  lemma TokenRead(b: Bytes, pos: nat, ll: nat, mc: nat)
    requires At(b, pos, [Token(ll, mc)])
    ensures pos < |b| && b[pos] / 16 == Min(ll, 15) && b[pos] % 16 == Min(mc, 15)
  {
    TokenParts(ll, mc);
    hide Token, At;
    AtFirst(b, pos, [Token(ll, mc)]);
  }

  lemma TokenParts(ll: nat, mc: nat)
    ensures Token(ll, mc) / 16 == Min(ll, 15) && Token(ll, mc) % 16 == Min(mc, 15)
  {
  }

  lemma ReadMatch(b: Bytes, pos: nat, offset: nat, mc: nat)
    requires offset <= DISTANCE_MAX && At(b, pos, EmitMatch(offset, mc))
    ensures pos + 2 <= |b| && LE16(b, pos) == offset
    ensures ReadNibbleLen(b, pos + 2, Min(mc, 15)) == Some((mc, pos + |EmitMatch(offset, mc)|))
  {
    hide LenExt, ReadNibbleLen;
    var o: Bytes := [offset % 256, offset / 256];
    AtConcat(b, pos, o, LenExt(mc));
    assert b[pos] == b[pos..pos + 2][0] && b[pos + 1] == b[pos..pos + 2][1];
    ReadLenExt(b, pos + 2, mc);
  }

  lemma ReadHeadLast(b: Bytes, pos: nat, lits: Bytes, nibble: nat)
    requires nibble < 16
    requires At(b, pos, EmitLiterals(lits, nibble)) && |b| == pos + |EmitLiterals(lits, nibble)|
    ensures pos < |b| && ReadHead(b, pos) == Last(lits)
  {
    ReadLiterals(b, pos, lits, nibble);
  }

  lemma ReadHeadNext(b: Bytes, pos: nat, s: Sequence)
    requires ValidSequence(s)
    requires At(b, pos, EmitSequence(s)) && |b| > pos + |EmitSequence(s)|
    ensures ReadHead(b, pos) == Next(s, pos + |EmitSequence(s)|)
  {
    hide EmitLiterals, EmitMatch, ReadNibbleLen, LE16, LenExt, Token;
    var mc := s.mlen - MINMATCH;
    var lit, mat := EmitLiterals(s.lits, mc), EmitMatch(s.offset, mc);
    AtConcat(b, pos, lit, mat);
    ReadLiterals(b, pos, s.lits, mc);
    ReadMatch(b, pos + |lit|, s.offset, mc);
  }

  lemma {:induction false} ParseEmit(b: Bytes, pos: nat, block: Block, nibble: nat)
    requires ValidSequences(block.seqs) && nibble < 16
    requires At(b, pos, EmitBlock(block, nibble)) && |b| == pos + |EmitBlock(block, nibble)|
    ensures Parse(b, pos) == Some(block)
    decreases |block.seqs|
  {
    hide ReadHead, EmitSequence, At;
    if |block.seqs| == 0 {
      assert EmitBlock(block, nibble) == EmitLiterals(block.last, nibble);
      ReadHeadLast(b, pos, block.last, nibble);
    } else {
      var s := block.seqs[0];
      var rest := Block(block.seqs[1..], block.last);
      assert EmitBlock(block, nibble) == EmitSequence(s) + EmitBlock(rest, nibble);
      assert |EmitBlock(rest, nibble)| > 0;
      AtConcat(b, pos, EmitSequence(s), EmitBlock(rest, nibble));
      ReadHeadNext(b, pos, s);
      ParseEmit(b, pos + |EmitSequence(s)|, rest, nibble);
      assert [s] + rest.seqs == block.seqs;
    }
  }

  /** Round trip of the written form: every list of sequences is read back exactly. */
  lemma ParseEmitBlock(block: Block, nibble: nat)
    requires ValidSequences(block.seqs) && nibble < 16
    ensures Parse(EmitBlock(block, nibble), 0) == Some(block)
  {
    var b := EmitBlock(block, nibble);
    assert b[0..0 + |b|] == b;
    ParseEmit(b, 0, block, nibble);
  }

  lemma {:induction false} LenBytesOfRead(b: Bytes, pos: nat)
    requires ReadLen(b, pos).Some?
    ensures var (n, p) := ReadLen(b, pos).value; b[pos..p] == LenBytes(n)
    decreases |b| - pos
  {
    if b[pos] < 255 {
      assert b[pos..pos + 1] == [b[pos]];
    } else {
      LenBytesOfRead(b, pos + 1);
      var p := ReadLen(b, pos).value.1;
      assert b[pos..p] == [255] + b[pos + 1..p];
    }
  }

  lemma LenExtOfRead(b: Bytes, pos: nat, nibble: nat)
    requires pos <= |b| && nibble < 16 && ReadNibbleLen(b, pos, nibble).Some?
    ensures var (n, p) := ReadNibbleLen(b, pos, nibble).value; Min(n, 15) == nibble && b[pos..p] == LenExt(n)
  {
    if nibble == 15 {
      LenBytesOfRead(b, pos);
    }
  }

  lemma EmitOfLiterals(b: Bytes, pos: nat, p: nat, ll: nat, mc: nat)
    requires pos < p <= p + ll <= |b|
    requires ReadNibbleLen(b, pos + 1, b[pos] / 16) == Some((ll, p)) && Min(mc, 15) == b[pos] % 16
    ensures EmitLiterals(b[p..p + ll], mc) == b[pos..p + ll]
  {
    LenExtOfRead(b, pos + 1, b[pos] / 16);
    assert Token(ll, mc) == b[pos] && |b[p..p + ll]| == ll;
    hide ReadNibbleLen, LenExt, Token;
    assert b[pos..pos + 1] == [b[pos]];
    SliceJoin(b, pos, pos + 1, p);
    SliceJoin(b, pos, p, p + ll);
  }

  lemma EmitOfMatch(b: Bytes, pos: nat, p: nat, nibble: nat, mc: nat)
    requires pos + 2 <= p <= |b| && nibble < 16
    requires ReadNibbleLen(b, pos + 2, nibble) == Some((mc, p))
    ensures EmitMatch(LE16(b, pos), mc) == b[pos..p]
  {
    LenExtOfRead(b, pos + 2, nibble);
    hide LenExt, ReadNibbleLen;
    assert b[pos..pos + 2] == [b[pos], b[pos + 1]] == [LE16(b, pos) % 256, LE16(b, pos) / 256];
    SliceJoin(b, pos, pos + 2, p);
  }

  /** What one head reads is exactly the bytes it covers. */
  lemma EmitOfHead(b: Bytes, pos: nat)
    requires pos < |b| && !ReadHead(b, pos).Bad?
    ensures match ReadHead(b, pos)
      case Last(lits) => EmitLiterals(lits, b[pos] % 16) == b[pos..]
      case Next(s, p) => EmitSequence(s) == b[pos..p]
  {
    hide EmitLiterals, EmitMatch, ReadNibbleLen, LE16, LenExt, Token;
    var (ll, p1) := ReadNibbleLen(b, pos + 1, b[pos] / 16).value;
    if p1 + ll == |b| {
      EmitOfLiterals(b, pos, p1, ll, b[pos] % 16);
      assert b[p1..p1 + ll] == b[p1..] && b[pos..p1 + ll] == b[pos..];
    } else {
      var (mc, p2) := ReadNibbleLen(b, p1 + ll + 2, b[pos] % 16).value;
      LenExtOfRead(b, p1 + ll + 2, b[pos] % 16);
      EmitOfLiterals(b, pos, p1, ll, mc);
      EmitOfMatch(b, p1 + ll, p2, b[pos] % 16, mc);
      SliceJoin(b, pos, p1 + ll, p2);
    }
  }

  /** Conversely, whatever parses is the written form of what it parsed to: blocks have one reading. */
  lemma {:induction false} EmitOfParse(b: Bytes, pos: nat) returns (nibble: nat)
    requires Parse(b, pos).Some?
    ensures nibble < 16
    ensures var block := Parse(b, pos).value;
      ValidSequences(block.seqs) && EmitBlock(block, nibble) == b[pos..]
    decreases |b| - pos
  {
    hide EmitLiterals, EmitSequence, ReadHead;
    var block := Parse(b, pos).value;
    EmitOfHead(b, pos);
    match ReadHead(b, pos)
    case Last(lits) =>
      nibble := b[pos] % 16;
      assert EmitBlock(block, nibble) == EmitLiterals(block.last, nibble);
    case Next(s, p) =>
      nibble := EmitOfParse(b, p);
      var rest := Parse(b, p).value;
      assert block.seqs[1..] == rest.seqs;
      assert EmitBlock(block, nibble) == EmitSequence(s) + EmitBlock(rest, nibble);
      assert b[pos..] == b[pos..p] + b[p..];
  }

  // ---------------------------------------------------------------- lemmas on meaning

  /** What a match copy is, without the loop: the prefix is kept and every new byte repeats the one
      `offset` before it. */
  lemma {:induction false} CopyMatchUnique(out: Bytes, offset: nat, n: nat, r: Bytes)
    requires 1 <= offset <= |out| && |r| == |out| + n && r[..|out|] == out
    requires forall i :: |out| <= i < |r| ==> r[i] == r[i - offset]
    ensures r == CopyMatch(out, offset, n)
    decreases n
  {
    if n == 0 {
      assert r == r[..|out|];
    } else {
      var out' := out + [out[|out| - offset]];
      assert r[|out|] == r[|out| - offset] == r[..|out|][|out| - offset];
      assert r[..|out'|] == out';
      CopyMatchUnique(out', offset, n - 1, r);
    }
  }

  lemma {:induction false} CopyMatchPeriodic(out: Bytes, offset: nat, n: nat)
    requires 1 <= offset <= |out|
    ensures var r := CopyMatch(out, offset, n);
      && |r| == |out| + n
      && r[..|out|] == out
      && forall i {:trigger r[i]} :: |out| <= i < |r| ==> r[i] == r[i - offset]
    decreases n
  {
    if n > 0 {
      var out' := out + [out[|out| - offset]];
      CopyMatchPeriodic(out', offset, n - 1);
      var r := CopyMatch(out, offset, n);
      assert r[..|out|] == r[..|out'|][..|out|] == out;
      assert r[|out|] == r[..|out'|][|out|];
      assert r[|out| - offset] == r[..|out|][|out| - offset];
    }
  }

  lemma {:induction false} ExpandExtends(out: Bytes, seqs: seq<Sequence>)
    requires Expand(out, seqs).Some?
    ensures |Expand(out, seqs).value| >= |out| && Expand(out, seqs).value[..|out|] == out
    decreases |seqs|
  {
    if |seqs| > 0 {
      var s := seqs[0];
      var o1 := out + s.lits;
      var o2 := CopyMatch(o1, s.offset, s.mlen);
      CopyMatchPeriodic(o1, s.offset, s.mlen);
      ExpandExtends(o2, seqs[1..]);
      var r := Expand(out, seqs).value;
      assert r[..|out|] == r[..|o2|][..|out|] == o2[..|o1|][..|out|] == out;
    }
  }

  lemma {:induction false} ExpandSnoc(out: Bytes, seqs: seq<Sequence>, s: Sequence)
    requires Expand(out, seqs).Some?
    requires var o := Expand(out, seqs).value; 1 <= s.offset <= |o| + |s.lits|
    ensures var o := Expand(out, seqs).value;
      Expand(out, seqs + [s]) == Some(CopyMatch(o + s.lits, s.offset, s.mlen))
    decreases |seqs|
  {
    if |seqs| == 0 {
      assert (seqs + [s])[1..] == [];
    } else {
      assert (seqs + [s])[1..] == seqs[1..] + [s];
      var s0 := seqs[0];
      ExpandSnoc(CopyMatch(out + s0.lits, s0.offset, s0.mlen), seqs[1..], s);
    }
  }

  lemma {:induction false} EmitSequencesSnoc(seqs: seq<Sequence>, s: Sequence)
    requires ValidSequences(seqs) && ValidSequence(s)
    ensures ValidSequences(seqs + [s])
    ensures EmitSequences(seqs + [s]) == EmitSequences(seqs) + EmitSequence(s)
    decreases |seqs|
  {
    hide EmitSequence;
    if |seqs| == 0 {
      assert (seqs + [s])[1..] == [];
    } else {
      assert (seqs + [s])[1..] == seqs[1..] + [s];
      EmitSequencesSnoc(seqs[1..], s);
      Assoc(EmitSequence(seqs[0]), EmitSequences(seqs[1..]), EmitSequence(s));
    }
  }

  /** More history in front changes nothing but the prefix: a block that decodes against `out` decodes
      to the same bytes against any longer history ending in `out`. */
  lemma {:induction false} ExpandLongerHistory(older: Bytes, out: Bytes, seqs: seq<Sequence>)
    requires Expand(out, seqs).Some?
    ensures Expand(older + out, seqs) == Some(older + Expand(out, seqs).value)
    decreases |seqs|
  {
    if |seqs| > 0 {
      var s := seqs[0];
      CopyMatchLonger(older, out + s.lits, s.offset, s.mlen);
      assert older + (out + s.lits) == older + out + s.lits;
      ExpandLongerHistory(older, CopyMatch(out + s.lits, s.offset, s.mlen), seqs[1..]);
    }
  }

  lemma {:induction false} CopyMatchLonger(older: Bytes, out: Bytes, offset: nat, n: nat)
    requires 1 <= offset <= |out|
    ensures CopyMatch(older + out, offset, n) == older + CopyMatch(out, offset, n)
    decreases n
  {
    if n > 0 {
      var x := [out[|out| - offset]];
      assert older + (out + x) == older + out + x;
      CopyMatchLonger(older, out + x, offset, n - 1);
    }
  }

  /** Offsets are at most 65535, so a suffix of that length is all the history a block can use. */
  lemma {:induction false} ExpandWindow(older: Bytes, out: Bytes, seqs: seq<Sequence>)
    requires |out| >= DISTANCE_MAX && ValidSequences(seqs)
    requires Expand(older + out, seqs).Some?
    ensures Expand(out, seqs).Some?
    ensures Expand(older + out, seqs) == Some(older + Expand(out, seqs).value)
    decreases |seqs|
  {
    if |seqs| > 0 {
      var s := seqs[0];
      assert older + (out + s.lits) == older + out + s.lits;
      CopyMatchLonger(older, out + s.lits, s.offset, s.mlen);
      ExpandWindow(older, CopyMatch(out + s.lits, s.offset, s.mlen), seqs[1..]);
    }
  }

  // ---------------------------------------------------------------- decoding and encoding

  /** The reference decoder: the bytes a block stands for, given the bytes that precede it. */
  function Decode(history: Bytes, b: Bytes): (r: Option<Bytes>)
    ensures r.Some? ==> Parse(b, 0).Some? && ExpandBlock(history, Parse(b, 0).value) == Some(history + r.value)
    ensures Parse(b, 0).Some? && ExpandBlock(history, Parse(b, 0).value).Some? ==> r.Some?
  {
    if Parse(b, 0).None? then None
    else
      var block := Parse(b, 0).value;
      match Expand(history, block.seqs)
      case None => None
      case Some(out) =>
        ExpandExtends(history, block.seqs);
        assert out == history + out[|history|..];
        assert out + block.last == history + (out[|history|..] + block.last);
        Some(out[|history|..] + block.last)
  }

  /** `b` is a block of the format for `content`, to be decoded after `history`. */
  predicate Encodes(b: Bytes, history: Bytes, content: Bytes) {
    && Decode(history, b) == Some(content)
    && EndRules(Parse(b, 0).value)
  }

  /** How a compressor establishes `Encodes`: what it wrote is the written form of sequences that expand
      to the input. */
  lemma EncodesOfEmit(seqs: seq<Sequence>, last: Bytes, history: Bytes, content: Bytes)
    requires ValidSequences(seqs) && EndRules(Block(seqs, last))
    requires Expand(history, seqs).Some? && Expand(history, seqs).value + last == history + content
    ensures Encodes(EmitBlock(Block(seqs, last), 0), history, content)
  {
    hide EmitBlock, Parse;
    var block := Block(seqs, last);
    ParseEmitBlock(block, 0);
    var d := Decode(history, EmitBlock(block, 0)).value;
    assert history + d == history + content;
    assert d == (history + d)[|history|..] == (history + content)[|history|..] == content;
  }

  /** Which history a block needs: any longer one, or any shorter one that still has 65535 bytes. */
  lemma EncodesWindow(b: Bytes, older: Bytes, recent: Bytes, content: Bytes)
    ensures Encodes(b, recent, content) ==> Encodes(b, older + recent, content)
    ensures |recent| >= DISTANCE_MAX && Encodes(b, older + recent, content) ==> Encodes(b, recent, content)
  {
    hide Parse;
    if Encodes(b, recent, content) {
      var block := Parse(b, 0).value;
      ExpandLongerHistory(older, recent, block.seqs);
      WindowContent(older, recent, block, b, content);
    }
    if |recent| >= DISTANCE_MAX && Encodes(b, older + recent, content) {
      var block := Parse(b, 0).value;
      var nibble := EmitOfParse(b, 0);
      ExpandWindow(older, recent, block.seqs);
      var d := Decode(recent, b).value;
      WindowContent(older, recent, block, b, d);
    }
  }

  lemma WindowContent(older: Bytes, recent: Bytes, block: Block, b: Bytes, content: Bytes)
    requires Parse(b, 0) == Some(block) && Decode(recent, b) == Some(content)
    requires Expand(older + recent, block.seqs) == Some(older + Expand(recent, block.seqs).value)
    ensures Decode(older + recent, b) == Some(content)
  {
    hide Parse, Expand, Decode;
    var e := Expand(recent, block.seqs).value;
    assert older + e + block.last == older + (e + block.last);
    var d := Decode(older + recent, b).value;
    assert older + recent + d == older + (recent + content) == older + recent + content;
    assert d == (older + recent + d)[|older + recent|..] == content;
  }
}
