/**
  Writing sequences into an output buffer: tokens, length bytes, literals and offsets, with the copies
  and stores that reach beyond what they are meant to write.
*/
module BlockWriter {
  import opened Lz4Format
  import BlockDecoder

  /** `dst[..n]` after `more` has been appended to what stood before. */
  twostate predicate Appended(dst: array<byte>, n0: nat, n: nat, more: Bytes)
    reads dst
  {
    n0 <= n <= dst.Length && dst[..n] == old(dst[..n0]) + more
  }

  /** The bytes of a long length, smallest last. */
  method WriteLength(dst: array<byte>, op0: nat, len0: nat) returns (op: nat)
    requires op0 + len0 / 255 + 1 <= dst.Length
    modifies dst
    ensures op == op0 + len0 / 255 + 1 && Appended(dst, op0, op, LenBytes(len0))
    ensures forall i :: op <= i < dst.Length ==> dst[i] == old(dst[i])
  {
    op := op0;
    var len := len0;
    ghost var n, rest := len0 / 255, len0 % 255;
    while len >= 255
      invariant op0 <= op <= op0 + n && len == 255 * (n - (op - op0)) + rest
      invariant forall i :: 0 <= i < op0 || op <= i < dst.Length ==> dst[i] == old(dst[i])
      invariant forall i :: op0 <= i < op ==> dst[i] == 255
    {
      dst[op] := 255;
      op, len := op + 1, len - 255;
    }
    dst[op] := len;
    op := op + 1;
    LenBytesWritten(dst[..op], op0, len0);
  }

  /** A length of which `k` bytes of 255 have been written. */
  lemma Spread(k: nat, rest: nat)
    ensures (255 * k + rest) / 255 == k + rest / 255 && (255 * k + rest) % 255 == rest % 255
  {
  }

  /** The token with its literal nibble and the literal length. */
  method WriteRunHeader(dst: array<byte>, op0: nat, litLength: nat) returns (op: nat)
    requires op0 + 1 + (litLength + 240) / 255 <= dst.Length
    modifies dst
    ensures op == op0 + 1 + (litLength + 240) / 255
    ensures Appended(dst, op0, op, [Token(litLength, 0)] + LenExt(litLength))
  {
    op := op0 + 1;
    ghost var before := dst[..op0];
    if litLength >= RUN_MASK {
      dst[op0] := 16 * RUN_MASK;
      assert dst[..op] == before + [Token(litLength, 0)];
      op := WriteLength(dst, op, litLength - RUN_MASK);
      hide LenBytes;
      Assoc(before, [Token(litLength, 0)], LenExt(litLength));
    } else {
      dst[op0] := 16 * litLength;
      assert [Token(litLength, 0)] + LenExt(litLength) == [Token(litLength, 0)];
    }
  }

  lemma LiteralsJoined(pre: Bytes, lits: Bytes, now: Bytes)
    requires now == pre + ([Token(|lits|, 0)] + LenExt(|lits|)) + lits
    ensures now == pre + EmitLiterals(lits, 0)
  {
    assert [Token(|lits|, 0)] + LenExt(|lits|) + lits == EmitLiterals(lits, 0);
  }

  /** A run of literals, copied eight bytes at a time. */
  method WriteLiterals(dst: array<byte>, op0: nat, src: Bytes, anchor: nat, litLength: nat) returns (op: nat)
    requires anchor + BlockDecoder.Overshoot(litLength) <= |src|
    requires op0 + 1 + (litLength + 240) / 255 + BlockDecoder.Overshoot(litLength) <= dst.Length
    modifies dst
    ensures op == op0 + 1 + (litLength + 240) / 255 + litLength
    ensures Appended(dst, op0, op, EmitLiterals(src[anchor..anchor + litLength], 0))
  {
    hide EmitLiterals;
    ghost var lits := src[anchor..anchor + litLength];
    op := WriteRunHeader(dst, op0, litLength);
    BlockDecoder.WildCopy8(dst, op, src, anchor, op + litLength);
    op := op + litLength;
    LiteralsJoined(old(dst[..op0]), lits, dst[..op]);
  }

  /** The closing run of literals, copied exactly. */
  method WriteLastRun(dst: array<byte>, op0: nat, src: Bytes, anchor: nat, lastRun: nat) returns (op: nat)
    requires anchor + lastRun <= |src| && op0 + 1 + (lastRun + 240) / 255 + lastRun <= dst.Length
    modifies dst
    ensures op == op0 + 1 + (lastRun + 240) / 255 + lastRun
    ensures Appended(dst, op0, op, EmitLiterals(src[anchor..anchor + lastRun], 0))
  {
    hide EmitLiterals;
    ghost var lits := src[anchor..anchor + lastRun];
    op := WriteRunHeader(dst, op0, lastRun);
    BlockDecoder.CopyExactly(dst, op, src, anchor, lastRun);
    op := op + lastRun;
    LiteralsJoined(old(dst[..op0]), lits, dst[..op]);
  }

  method WriteOffset(dst: array<byte>, op0: nat, offset: nat) returns (op: nat)
    requires op0 + 2 <= dst.Length && offset <= DISTANCE_MAX
    modifies dst
    ensures op == op0 + 2 && Appended(dst, op0, op, [offset % 256, offset / 256])
  {
    dst[op0] := offset % 256;
    dst[op0 + 1] := offset / 256;
    op := op0 + 2;
  }

  /** `LZ4_write32(op, 0xFFFFFFFF)`. */
  method WriteFour255(dst: array<byte>, op: nat)
    requires op + 4 <= dst.Length
    modifies dst
    ensures forall i :: 0 <= i < op ==> dst[i] == old(dst[i])
    ensures forall i :: op <= i < op + 4 ==> dst[i] == 255
  {
    dst[op], dst[op + 1], dst[op + 2], dst[op + 3] := 255, 255, 255, 255;
  }

  lemma {:induction false} LenBytesAt(n: nat)
    ensures var l := LenBytes(n); l[|l| - 1] == n % 255 && forall i :: 0 <= i < |l| - 1 ==> l[i] == 255
  {
    if n >= 255 { LenBytesAt(n - 255); }
  }

  lemma LenBytesWritten(out: Bytes, op0: nat, n: nat)
    requires |out| == op0 + n / 255 + 1 && out[|out| - 1] == n % 255 && forall i :: op0 <= i < |out| - 1 ==>
      out[i] == 255
    ensures out == out[..op0] + LenBytes(n)
  {
    var l := out[op0..];
    LenBytesUnique(n, l);
    assert out == out[..op0] + l;
  }

  lemma LenBytesUnique(n: nat, l: Bytes)
    requires |l| == n / 255 + 1 && l[|l| - 1] == n % 255 && forall i :: 0 <= i < |l| - 1 ==> l[i] == 255
    ensures l == LenBytes(n)
  {
    LenBytesAt(n);
  }

  /** The match length of `LZ4_compress_generic_validated`: four bytes of 255 at a time, which may be
      written past the last one. */
  method WriteMatchLength(dst: array<byte>, op0: nat, mc: nat) returns (op: nat)
    requires mc >= ML_MASK && op0 + (mc + 240) / 255 + 4 <= dst.Length
    modifies dst
    ensures op == op0 + (mc + 240) / 255 && Appended(dst, op0, op, LenExt(mc))
  {
    ghost var n, rest := (mc - ML_MASK) / 255, (mc - ML_MASK) % 255;
    assert (mc + 240) / 255 == n + 1 && mc - ML_MASK == 255 * n + rest;
    op := op0;
    var matchCode := mc - ML_MASK;
    WriteFour255(dst, op);
    while matchCode >= 4 * 255
      invariant op0 <= op <= op0 + n && matchCode == 255 * (n - (op - op0)) + rest
      invariant forall i :: 0 <= i < op0 ==> dst[i] == old(dst[i])
      invariant forall i :: op0 <= i < op + 4 ==> dst[i] == 255
      invariant op + 4 <= dst.Length
    {
      op := op + 4;
      WriteFour255(dst, op);
      matchCode := matchCode - 4 * 255;
    }
    Spread(n - (op - op0), rest);
    op := op + matchCode / 255;
    dst[op] := matchCode % 255;
    op := op + 1;
    LenBytesWritten(dst[..op], op0, mc - ML_MASK);
  }

  /** The match nibble added to a token whose literals and offset are already written. */
  method CompleteToken(dst: array<byte>, op: nat, offset: nat, mc: nat, ghost pre: Bytes, ghost lits: Bytes, token: nat)
    requires offset <= DISTANCE_MAX && token == |pre| && op <= dst.Length
    requires dst[..op] == pre + EmitLiterals(lits, 0) + [offset % 256, offset / 256]
    modifies dst
    ensures dst[..op] == pre + EmitLiterals(lits, mc) + [offset % 256, offset / 256]
  {
    TokenAt(pre, lits, [offset % 256, offset / 256], mc);
    assert dst[..op][token] == dst[token];
    dst[token] := dst[token] + Min(mc, ML_MASK);
  }

  lemma TokenAt(pre: Bytes, lits: Bytes, after: Bytes, mc: nat)
    ensures var b := pre + EmitLiterals(lits, 0) + after;
      && b[|pre|] == Token(|lits|, 0) && b[|pre|] + Min(mc, ML_MASK) == Token(|lits|, mc)
      && b[|pre| := Token(|lits|, mc)] == pre + EmitLiterals(lits, mc) + after
  {
    FirstReplaced(pre, EmitLiterals(lits, 0), EmitLiterals(lits, mc), after);
  }

  lemma FirstReplaced(pre: Bytes, e: Bytes, e': Bytes, after: Bytes)
    requires |e| == |e'| > 0 && e[1..] == e'[1..]
    ensures (pre + e + after)[|pre|] == e[0] && (pre + e + after)[|pre| := e'[0]] == pre + e' + after
  {
  }

  /** The completed token, the offset and the length bytes make a whole sequence. */
  lemma SequenceWritten(pre: Bytes, s: Sequence, now: Bytes)
    requires ValidSequence(s)
    requires var mc := s.mlen - MINMATCH;
      now == pre + EmitLiterals(s.lits, mc) + [s.offset % 256, s.offset / 256] + LenExt(mc)
    ensures now == pre + EmitSequence(s)
  {
    hide EmitLiterals, LenExt;
    var mc := s.mlen - MINMATCH;
    var l, o: Bytes, e := EmitLiterals(s.lits, mc), [s.offset % 256, s.offset / 256], LenExt(mc);
    assert pre + l + o + e == pre + (l + (o + e));
  }
}
