/**
  The legacy decoder `LZ4_decompress_unsafe_generic`, which is told how much to produce but not where the block ends.
  It copies one byte at a time, and serves as an independent account of what the optimised decoder produces.
*/
module UnsafeDecoder {
  import opened Wrappers
  import opened Lz4Format
  import opened DecoderSpec
  import BlockDecoder
  import DecoderApi

  /** What a block produces, in bytes. */
  function Size(block: Block): nat
    decreases |block.seqs|
  {
    if |block.seqs| == 0 then |block.last|
    else |block.seqs[0].lits| + block.seqs[0].mlen + Size(Block(block.seqs[1..], block.last))
  }

  lemma {:induction false} SizeOfExpand(out: Bytes, block: Block)
    requires ExpandBlock(out, block).Some?
    ensures |ExpandBlock(out, block).value| == |out| + Size(block)
    decreases |block.seqs|
  {
    if |block.seqs| > 0 {
      var s := block.seqs[0];
      SizeOfExpand(CopyMatch(out + s.lits, s.offset, s.mlen), Block(block.seqs[1..], block.last));
    }
  }

  /** The block in front of `src` still has at least `room` bytes to produce from `ip` on. */
  ghost predicate Pending(b: Bytes, ip: nat, room: nat) {
    Parse(b, ip).Some? && Size(Parse(b, ip).value) >= room
  }

  /** After `out`, the rest of the block leads to `total`; it obeys the end rules just if `proper`. */
  ghost predicate Leads(b: Bytes, ip: nat, out: Bytes, total: Bytes, proper: bool) {
    Parse(b, ip).Some? && ExpandBlock(out,
                                      Parse(b, ip).value) == Some(total) && (EndRules(Parse(b, ip).value) <==> proper)
  }

  lemma PendingHead(b: Bytes, ip: nat, room: nat)
    requires Pending(b, ip, room)
    ensures ip < |b|
    ensures match ReadHead(b, ip)
      case Bad => false
      case Last(lits) => |lits| >= room
      case Next(s, p) => room >= |s.lits| + s.mlen ==> Pending(b, p, room - |s.lits| - s.mlen)
  {
    hide ReadHead;
    match ReadHead(b, ip)
    case Last(lits) =>
    case Next(s, p) =>
      var block, rest := Parse(b, ip).value, Parse(b, p).value;
      assert block.seqs[1..] == rest.seqs;
    case Bad =>
  }

  /** One sequence of a block that leads to `total`: the limits at the end hold here and later on just if the
      whole obeys the end rules. */
  lemma LeadsHead(b: Bytes, ip: nat, out: Bytes, total: Bytes, proper: bool)
    requires Leads(b, ip, out, total, proper)
    ensures match ReadHead(b, ip)
      case Bad => false
      case Last(lits) => total == out + lits && proper
      case Next(s, p) =>
        var c := out + s.lits;
        && 1 <= s.offset <= |c| && |c| + s.mlen <= |total|
        && (|c| + MFLIMIT > |total| || |c| + s.mlen + LASTLITERALS > |total| ==> !proper)
        && (|c| + MFLIMIT <= |total| && |c| + s.mlen + LASTLITERALS <= |total|
            ==> Leads(b, p, CopyMatch(c, s.offset, s.mlen), total, proper))
  {
    hide ReadHead, CopyMatch;
    var block := Parse(b, ip).value;
    match ReadHead(b, ip)
    case Bad =>
    case Last(lits) =>
    case Next(s, p) =>
      var rest := Parse(b, p).value;
      assert block.seqs == [s] + rest.seqs && block.seqs[1..] == rest.seqs;
      var full := CopyMatch(out + s.lits, s.offset, s.mlen);
      ExpandExtends(full, rest.seqs);
      EndRulesStep(block, s, rest);
      if proper {
        var nibble := EmitOfParse(b, ip);
        RoomAfter(out, block);
      }
  }

  lemma EndRulesStep(block: Block, s: Sequence, rest: Block)
    requires block.seqs == [s] + rest.seqs && block.last == rest.last
    ensures |rest.seqs| > 0 ==> (EndRules(block) <==> EndRules(rest))
    ensures |rest.seqs| == 0 ==> (EndRules(block) <==> |rest.last| >= LASTLITERALS && s.mlen + |rest.last| >= MFLIMIT)
  {
    if |rest.seqs| > 0 {
      assert block.seqs[|block.seqs| - 1] == rest.seqs[|rest.seqs| - 1];
    }
  }

  /** The source begins with the block. */
  ghost predicate Begins(src: Bytes, b: Bytes) {
    |b| <= |src| && forall i :: 0 <= i < |b| ==> src[i] == b[i]
  }

  /** `read_long_length_no_check`. */
  method ReadLongLength(src: Bytes, pos: nat, ghost b: Bytes) returns (l: nat, p: nat)
    requires Begins(src, b) && ReadLen(b, pos).Some?
    ensures ReadLen(b, pos) == Some((l, p)) && p <= |src|
  {
    l, p := 0, pos;
    var more := true;
    while more
      invariant more ==>
        ReadLen(b, p).Some? && ReadLen(b, pos) == Some((l + ReadLen(b, p).value.0, ReadLen(b, p).value.1))
      invariant !more ==> ReadLen(b, pos) == Some((l, p))
      decreases more, |b| - p
    {
      var x := src[p];
      p := p + 1;
      l := l + x;
      more := x == 255;
    }
  }

  method ReadNibble(src: Bytes, pos: nat, nibble: nat, ghost b: Bytes) returns (l: nat, p: nat)
    requires Begins(src, b) && pos <= |b| && nibble < 16 && ReadNibbleLen(b, pos, nibble).Some?
    ensures ReadNibbleLen(b, pos, nibble) == Some((l, p))
  {
    l, p := nibble, pos;
    if nibble == 15 {
      var more;
      more, p := ReadLongLength(src, p, b);
      l := l + more;
    }
  }

  /** The match copy: from the end of the external dictionary first, then one byte at a time. */
  method CopyMatchBytes(buf: array<byte>, op0: nat, low: nat, ext: Bytes, offset: nat, mlen: nat) returns (op: nat)
    requires low <= op0 && op0 + mlen <= buf.Length && offset <= op0 - low + |ext|
    modifies buf
    ensures op == op0 + mlen
    ensures forall i :: 0 <= i < op0 || op0 + mlen <= i < buf.Length ==> buf[i] == old(buf[i])
    ensures offset > 0 ==> ext + buf[low..op] == CopyMatch(ext + old(buf[low..op0]), offset, mlen)
  {
    hide CopyMatch;
    ghost var before := buf[..];
    var ml, m;
    op, ml, m := CopyExtPart(buf, op0, low, ext, offset, mlen);
    var u := 0;
    while u < ml
      invariant 0 <= u <= ml
      invariant forall i :: 0 <= i < op0 || op0 + mlen <= i < buf.Length ==> buf[i] == before[i]
      invariant offset > 0 ==> forall i :: op0 <= i < op + u ==>
        buf[i] == BlockDecoder.VirtualByte(ext, low, buf[..], i - offset)
    {
      buf[op + u] := buf[m + u];
      u := u + 1;
    }
    op := op + ml;
    if offset > 0 { BlockDecoder.VirtualMatch(ext, low, before, buf[..], op0, offset, mlen); }
  }

  /** What the match takes from the external dictionary; `ml` bytes remain, to be copied from `m`. */
  method CopyExtPart(buf: array<byte>, op0: nat, low: nat, ext: Bytes, offset: nat, mlen: nat)
    returns (op: nat, ml: nat, m: nat)
    requires low <= op0 && op0 + mlen <= buf.Length && offset <= op0 - low + |ext|
    modifies buf
    ensures op0 <= op && op + ml == op0 + mlen
    ensures forall i :: 0 <= i < op0 || op0 + mlen <= i < buf.Length ==> buf[i] == old(buf[i])
    ensures offset > 0 ==> forall i :: op0 <= i < op ==>
      buf[i] == BlockDecoder.VirtualByte(ext, low, buf[..], i - offset)
    ensures ml > 0 ==> low <= m == op - offset
  {
    op, ml := op0, mlen;
    if offset > op - low {
      var extMatch := |ext| - (offset - (op - low));
      var extml := |ext| - extMatch;
      if extml > ml {
        BlockDecoder.CopyExactly(buf, op, ext, extMatch, ml);
        FromExt(ext, low, buf[..], op0, offset, extMatch, ml);
        op, ml := op + ml, 0;
      } else {
        BlockDecoder.CopyExactly(buf, op, ext, extMatch, extml);
        FromExt(ext, low, buf[..], op0, offset, extMatch, extml);
        op, ml := op + extml, ml - extml;
      }
      m := low;
    } else {
      m := op - offset;
    }
  }

  lemma FromExt(ext: Bytes, low: nat, b: Bytes, op: nat, offset: nat, extMatch: nat, n: nat)
    requires low <= op && op + n <= |b| && op - low < offset <= op - low + |ext|
    requires extMatch == |ext| - (offset - (op - low))
    requires extMatch + n <= |ext| && b[op..op + n] == ext[extMatch..extMatch + n]
    ensures forall i :: op <= i < op + n ==> b[i] == BlockDecoder.VirtualByte(ext, low, b, i - offset)
  {
    forall i | op <= i < op + n
      ensures b[i] == BlockDecoder.VirtualByte(ext, low, b, i - offset)
    {
      assert b[i] == b[op..op + n][i - op] == ext[extMatch + (i - op)];
    }
  }

  datatype Status = More | Ended | Failed

  /** The literals of one sequence; they end the block, or the destination, if they fill it. */
  method Literals(src: Bytes, buf: array<byte>, ip0: nat, op0: nat, oend: nat, ghost b: Bytes)
    returns (status: Status, ip: nat, op: nat)
    requires Begins(src, b) && op0 <= oend <= buf.Length && Pending(b, ip0, oend - op0)
    modifies buf
    ensures forall i :: 0 <= i < op0 || oend <= i < buf.Length ==> buf[i] == old(buf[i])
    ensures match ReadHead(b, ip0)
      case Bad => false
      case Last(lits) =>
        if |lits| > oend - op0 then status == Failed
        else status == Ended && ip == |b| && op == oend == op0 + |lits| && buf[op0..op] == lits
      case Next(s, p) =>
        if |s.lits| > oend - op0 then status == Failed
        else
          && op == op0 + |s.lits| && buf[op0..op] == s.lits && ip0 < ip <= |b|
          && (status == Ended <==> op == oend) && (status == Failed <==> op != oend && oend - op < MFLIMIT)
          && (status == More ==> ip + 2 <= |b| && LE16(b, ip) == s.offset
                                 && ReadNibbleLen(b, ip + 2, b[ip0] % 16) == Some((s.mlen - MINMATCH, p)))
  {
    hide ReadNibbleLen, LE16;
    PendingHead(b, ip0, oend - op0);
    var token := src[ip0];
    var ll;
    ll, ip := ReadNibble(src, ip0 + 1, token / 16, b);
    op := op0;
    if oend - op < ll { return Failed, ip, op; }
    assert src[ip..ip + ll] == b[ip..ip + ll];
    BlockDecoder.CopyExactly(buf, op, src, ip, ll);
    op, ip := op + ll, ip + ll;
    if oend - op < MFLIMIT {
      if op == oend { return Ended, ip, op; }
      return Failed, ip, op;
    }
    status := More;
  }

  /** Offset, length and copy of a match. */
  method MatchBytes(src: Bytes, buf: array<byte>, ip0: nat, op0: nat, oend: nat, low: nat, ext: Bytes, nibble: nat,
                    ghost b: Bytes, ghost mlen: nat, ghost next: nat)
    returns (status: Status, ip: nat, op: nat)
    requires Begins(src, b) && low <= op0 <= oend <= buf.Length && ip0 + 2 <= |b| && nibble < 16
    requires ReadNibbleLen(b, ip0 + 2, nibble) == Some((mlen - MINMATCH, next)) && mlen >= MINMATCH
    modifies buf
    ensures forall i :: 0 <= i < op0 || oend <= i < buf.Length ==> buf[i] == old(buf[i])
    ensures status != Ended && ip == next && op0 <= op <= oend
    ensures status == More ==> op == op0 + mlen && op + LASTLITERALS <= oend
    ensures var offset := LE16(b, ip0);
      1 <= offset <= op0 - low + |ext| && op0 + mlen + LASTLITERALS <= oend ==>
        status == More && ext + buf[low..op] == CopyMatch(ext + old(buf[low..op0]), offset, mlen)
  {
    hide ReadNibbleLen, CopyMatch;
    var offset := LE16(src, ip0);
    assert offset == LE16(b, ip0);
    var ml;
    ml, ip := ReadNibble(src, ip0 + 2, nibble, b);
    ml := ml + MINMATCH;
    op := op0;
    if oend - op < ml { return Failed, ip, op; }
    if offset > op - low + |ext| { return Failed, ip, op; }
    op := CopyMatchBytes(buf, op, low, ext, offset, ml);
    status := if oend - op < LASTLITERALS then Failed else More;
  }

  /** What is known before each sequence. With `exact`, the whole block produces just the bytes asked for. */
  ghost predicate Known(b: Bytes, ip: nat, room: nat, out: Bytes, exact: bool, total: Bytes, proper: bool) {
    Pending(b, ip, room) && (exact ==> Leads(b, ip, out, total, proper) && |total| == |out| + room)
  }

  /** One sequence. */
  method OneSequence(src: Bytes, buf: array<byte>, ip0: nat, op0: nat, oend: nat, low: nat, ext: Bytes, ghost b: Bytes,
                     ghost exact: bool, ghost total: Bytes, ghost proper: bool)
    returns (status: Status, ip: nat, op: nat)
    requires Begins(src, b) && low <= op0 <= oend <= buf.Length
    requires Known(b, ip0, oend - op0, ext + buf[low..op0], exact, total, proper)
    modifies buf
    ensures forall i :: 0 <= i < op0 || oend <= i < buf.Length ==> buf[i] == old(buf[i])
    ensures op0 <= op <= oend && (status != Failed ==> ip0 < ip <= |b|)
    ensures status == More ==> Known(b, ip, oend - op, ext + buf[low..op], exact, total, proper)
    ensures exact && status == Ended ==> proper && ip == |b| && op == oend && ext + buf[low..op] == total
    ensures exact && status == Failed ==> !proper
  {
    hide ReadHead, CopyMatch, Parse, Pending, Leads, ReadNibbleLen, LE16;
    ghost var out, room := ext + buf[low..op0], oend - op0;
    PendingHead(b, ip0, room);
    if exact { LeadsHead(b, ip0, out, total, proper); }
    status, ip, op := Literals(src, buf, ip0, op0, oend, b);
    if status == Failed { return status, ip, op0; }
    BlockDecoder.OutputGrows(ext, old(buf[..]), buf[..], low, op0, op);
    if status == Ended { return; }
    ghost var s, p := ReadHead(b, ip0).s, ReadHead(b, ip0).pos;
    status, ip, op := MatchBytes(src, buf, ip, op, oend, low, ext, src[ip0] % 16, b, s.mlen, p);
  }

  /**
    `LZ4_decompress_unsafe_generic`, on a source that begins with a block of at least the size asked for: only the
    destination is written, and no byte after the block is read. When the block has just that size, it is decoded
    and the number of its bytes returned if it obeys the end rules, and rejected otherwise.
  */
  method DecompressUnsafeGeneric(src: Bytes, buf: array<byte>, dst: nat, decompressedSize: nat, prefixSize: nat,
                                 ext: Bytes, ghost b: Bytes)
    returns (r: int)
    requires dst + decompressedSize <= buf.Length && prefixSize <= dst
    requires Begins(src, b) && Parse(b, 0).Some? && Size(Parse(b, 0).value) >= decompressedSize
    modifies buf
    ensures forall i :: 0 <= i < dst || dst + decompressedSize <= i < buf.Length ==> buf[i] == old(buf[i])
    ensures r == -1 || 0 < r <= |b|
    ensures var d := Decode(ext + old(buf[dst - prefixSize..dst]), b);
      d.Some? && |d.value| == decompressedSize ==>
        if EndRules(Parse(b, 0).value) then r == |b| && buf[dst..dst + decompressedSize] == d.value else r == -1
  {
    hide Parse, Pending, Leads, Known, Decode;
    ghost var low, history := dst - prefixSize, ext + buf[dst - prefixSize..dst];
    ghost var d := Decode(history, b);
    ghost var exact := d.Some? && |d.value| == decompressedSize;
    ghost var total: Bytes := if exact then history + d.value else [];
    ghost var proper := EndRules(Parse(b, 0).value);
    var ip, op, oend, status := 0, dst, dst + decompressedSize, More;
    Started(b, decompressedSize, history, exact, total, proper);
    while status == More
      invariant dst <= op <= oend
      invariant forall i :: 0 <= i < dst || oend <= i < buf.Length ==> buf[i] == old(buf[i])
      invariant status == More ==> Known(b, ip, oend - op, ext + buf[low..op], exact, total, proper)
      invariant exact && status == Ended ==> proper && ip == |b| && op == oend && ext + buf[low..op] == total
      invariant exact && status == Failed ==> !proper
      invariant status == Ended ==> 0 < ip <= |b|
      decreases status == More, |b| - ip
    {
      status, ip, op := OneSequence(src, buf, ip, op, oend, dst - prefixSize, ext, b, exact, total, proper);
    }
    if status == Failed { return -1; }
    if exact { ContentLast(ext, buf[..], low, dst, oend, old(buf[..]), total); }
    r := ip;
  }

  lemma Started(b: Bytes, size: nat, history: Bytes, exact: bool, total: Bytes, proper: bool)
    requires Parse(b, 0).Some? && Size(Parse(b, 0).value) >= size && proper == EndRules(Parse(b, 0).value)
    requires exact ==>
      Decode(history, b).Some? && |Decode(history, b).value| == size && total == history + Decode(history, b).value
    ensures Known(b, 0, size, history, exact, total, proper)
  {
    hide Parse;
  }

  lemma ContentLast(ext: Bytes, after: Bytes, low: nat, dst: nat, oend: nat, before: Bytes, total: Bytes)
    requires low <= dst <= oend <= |after| == |before| && forall i :: 0 <= i < dst ==> after[i] == before[i]
    requires ext + after[low..oend] == total
    ensures total[..|ext| + (dst - low)] == ext + before[low..dst]
    ensures after[dst..oend] == total[|ext| + (dst - low)..]
  {
    assert after[low..dst] == before[low..dst];
    assert after[low..oend] == after[low..dst] + after[dst..oend];
    assert ext + after[low..oend] == ext + after[low..dst] + after[dst..oend];
  }

  /** On every valid block the safe decoder and the one that trusts its input produce the same, and the latter finds the
      end of the block by itself. */
  method DecodersAgree(b: Bytes, more: Bytes, buf: array<byte>, other: array<byte>, dst: nat, size: nat,
                       prefixSize: nat, ext: Bytes, ghost content: Bytes)
    returns (r: int, r': int)
    requires buf != other && buf[..] == other[..] && prefixSize <= dst && dst + size <= buf.Length
    requires Encodes(b, ext + buf[dst - prefixSize..dst], content) && |content| == size && (size > 0 || b == [0])
    modifies buf, other
    ensures r == size && r' == |b| && buf[dst..dst + size] == other[dst..dst + size] == content
  {
    hide Parse, Decode, Encodes, Size;
    ghost var low := dst - prefixSize;
    assert other[..][low..dst] == buf[..][low..dst];
    EncodedSize(b, ext + buf[low..dst], content);
    r := DecoderApi.DecompressValid(b, buf, dst, size, BlockDecoder.UsingExtDict, dst - prefixSize, ext, content);
    r' := DecompressUnsafeGeneric(b + more, other, dst, size, prefixSize, ext, b);
  }

  lemma EncodedSize(b: Bytes, history: Bytes, content: Bytes)
    requires Encodes(b, history, content)
    ensures Parse(b, 0).Some? && Size(Parse(b, 0).value) == |content| && EndRules(Parse(b, 0).value)
    ensures Decode(history, b) == Some(content)
  {
    hide Parse;
    SizeOfExpand(history, Parse(b, 0).value);
  }
}
