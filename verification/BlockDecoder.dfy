/**
  The optimised block decoder, in place on its destination buffer.

  `buf` is the memory around the destination: `dst` is where output starts and everything from
  `lowPrefix` up to it is the prefix. The external dictionary and the source are read-only. Copies are
  made eight bytes at a time and may run past their end; what is proved is that the bytes that count
  are those of `DecoderSpec`, and that no byte outside the destination is ever written.
*/
module BlockDecoder {
  import opened Wrappers
  import opened Lz4Format
  import opened DecoderSpec

  datatype DictMode = NoDict | WithPrefix64k | UsingExtDict

  datatype Status = More | Ended | Failed

  // ---------------------------------------------------------------- copies

  /** How far an eight-bytes-at-a-time copy of `n` bytes may write. */
  function Overshoot(n: nat): nat {
    if n == 0 then 8 else n + 7
  }

  /** `LZ4_wildCopy8` from a buffer that does not overlap the destination. */
  method WildCopy8(buf: array<byte>, dst: nat, src: Bytes, start: nat, end: nat)
    requires dst <= end && start + Overshoot(end - dst) <= |src| && dst + Overshoot(end - dst) <= buf.Length
    modifies buf
    ensures buf[dst..end] == src[start..start + (end - dst)]
    ensures buf[..end] == old(buf[..dst]) + src[start..start + (end - dst)]
    ensures forall i :: 0 <= i < dst || dst + Overshoot(end - dst) <= i < buf.Length ==> buf[i] == old(buf[i])
  {
    var d, s := dst, start;
    forall k | 0 <= k < 8 { buf[d + k] := src[s + k]; }
    d, s := d + 8, s + 8;
    while d < end
      invariant d - dst == s - start && dst + 8 <= d <= dst + Max(8, end - dst + 7)
      invariant forall i :: dst <= i < d ==> buf[i] == src[i - dst + start]
      invariant forall i :: 0 <= i < dst || d <= i < buf.Length ==> buf[i] == old(buf[i])
    {
      forall k | 0 <= k < 8 { buf[d + k] := src[s + k]; }
      d, s := d + 8, s + 8;
    }
  }

  /** `LZ4_wildCopy8` within the buffer, from at least eight bytes before. */
  method WildCopy8Within(buf: array<byte>, dst: nat, from: nat, end: nat)
    requires from + 8 <= dst <= end && dst + Overshoot(end - dst) <= buf.Length
    modifies buf
    ensures forall i :: dst <= i < end ==> buf[i] == buf[i - (dst - from)]
    ensures forall i :: 0 <= i < dst || dst + Overshoot(end - dst) <= i < buf.Length ==> buf[i] == old(buf[i])
  {
    var d, m := dst, from;
    forall k | 0 <= k < 8 { buf[d + k] := buf[m + k]; }
    d, m := d + 8, m + 8;
    while d < end
      invariant d - dst == m - from && dst + 8 <= d <= dst + Max(8, end - dst + 7)
      invariant forall i :: dst <= i < d ==> buf[i] == buf[i - (dst - from)]
      invariant forall i :: 0 <= i < dst || d <= i < buf.Length ==> buf[i] == old(buf[i])
    {
      forall k | 0 <= k < 8 { buf[d + k] := buf[m + k]; }
      d, m := d + 8, m + 8;
    }
  }

  /** `inc32table` and `dec64table`: how the match pointer moves after the first four, then eight, bytes
      of a match less than eight bytes back. */
  const INC32: seq<int> := [0, 1, 2, 1, 0, 4, 4, 4]
  const DEC64: seq<int> := [0, 0, 0, -1, -4, 1, 2, 3]

  /** How many periods back the tables leave the match pointer, so that it is at least eight bytes away. */
  function SpreadSteps(offset: nat): (k: nat)
    requires 1 <= offset < 8
    ensures k >= 1 && 8 <= k * offset < 8 + offset
    ensures k * offset == 8 + offset - (INC32[offset] - DEC64[offset])
  {
    if offset == 1 then 8 else if offset == 2 then 4 else if offset == 3 then 3 else 2
  }

  lemma {:induction false} StepBack(s: Bytes, low: nat, offset: nat, i: nat, k: nat)
    requires 1 <= offset <= low && i < |s| && low + k * offset <= i + offset && k * offset <= i
    requires forall j :: low <= j <= i ==> s[j] == s[j - offset]
    ensures s[i] == s[i - k * offset]
    decreases k
  {
    if k > 0 {
      assert k * offset == (k - 1) * offset + offset;
      if k > 1 {
        assert (k - 1) * offset >= offset;
        StepBack(s, low, offset, i - offset, k - 1);
      }
    }
  }

  /** Copying from further back by a multiple of the period continues the period. */
  lemma {:induction false} SpreadKeepsPeriod(s: Bytes, op: nat, offset: nat, dist: nat, end: nat)
    requires 1 <= offset < 8 && offset <= op && dist == SpreadSteps(offset) * offset && op + 8 <= |s| && end <= |s|
    requires forall i :: op <= i < op + 8 ==> s[i] == s[i - offset]
    requires dist <= op + 8 && forall i :: op + 8 <= i < end ==> s[i] == s[i - dist]
    ensures forall i :: op <= i < end ==> s[i] == s[i - offset]
    decreases end
  {
    if end > op + 8 {
      SpreadKeepsPeriod(s, op, offset, dist, end - 1);
      var i, k := end - 1, SpreadSteps(offset);
      assert dist == (k - 1) * offset + offset;
      StepBack(s, op, offset, i - offset, k - 1);
    }
  }

  /** The copy of a match that lies within the prefix and the output, full decoding. */
  method CopyWithinBlock(buf: array<byte>, op0: nat, offset: nat, length: nat, oend: nat) returns (ok: bool)
    requires MINMATCH <= length && offset <= op0 && op0 + 12 <= oend <= buf.Length
    modifies buf
    ensures ok <==> op0 + length <= oend - LASTLITERALS
    ensures forall i :: 0 <= i < op0 || oend <= i < buf.Length ==> buf[i] == old(buf[i])
    ensures ok && offset > 0 ==> forall i :: op0 <= i < op0 + length ==> buf[i] == buf[i - offset]
  {
    var cpy := op0 + length;
    var m := FirstEight(buf, op0, offset);
    var op := op0 + 8;
    if cpy > oend - 12 {
      var oCopyLimit := oend - 7;
      if cpy > oend - LASTLITERALS { return false; }
      ghost var dist := op - m;
      if op < oCopyLimit {
        WildCopy8Within(buf, op, m, oCopyLimit);
        m := m + (oCopyLimit - op);
        op := oCopyLimit;
      }
      while op < cpy
        invariant op0 + 8 <= op && op - m == dist && op <= oend
        invariant forall i :: op0 <= i < op0 + 8 && offset > 0 ==> buf[i] == buf[i - offset]
        invariant forall i :: op0 + 8 <= i < op ==> buf[i] == buf[i - dist]
        invariant forall i :: 0 <= i < op0 || oend <= i < buf.Length ==> buf[i] == old(buf[i])
      {
        buf[op] := buf[m];
        op, m := op + 1, m + 1;
      }
      Period(buf[..], op0, offset, dist, cpy);
    } else {
      CopyRest(buf, op, m, length, cpy);
      Period(buf[..], op0, offset, op - m, cpy);
    }
    ok := true;
  }

  method CopyRest(buf: array<byte>, op: nat, m: nat, length: nat, cpy: nat)
    requires m + 8 <= op && MINMATCH <= length && cpy + 8 == op + length && cpy + 12 <= buf.Length
    modifies buf
    ensures forall i :: 0 <= i < op || cpy + 12 <= i < buf.Length ==> buf[i] == old(buf[i])
    ensures forall i :: op <= i < cpy ==> buf[i] == buf[i - (op - m)]
  {
    forall k | 0 <= k < 8 { buf[op + k] := buf[m + k]; }
    if length > 16 { WildCopy8Within(buf, op + 8, m + 8, cpy); }
  }

  lemma Period(s: Bytes, op: nat, offset: nat, dist: nat, cpy: nat)
    requires offset <= op && op + 8 <= |s| && cpy <= |s| && dist <= op + 8
    requires offset >= 8 ==> dist == offset
    requires 1 <= offset < 8 ==> dist == SpreadSteps(offset) * offset
    requires offset > 0 ==> forall i :: op <= i < op + 8 ==> s[i] == s[i - offset]
    requires forall i :: op + 8 <= i < cpy ==> s[i] == s[i - dist]
    ensures offset > 0 ==> forall i :: op <= i < cpy ==> s[i] == s[i - offset]
  {
    if 1 <= offset < 8 { SpreadKeepsPeriod(s, op, offset, dist, cpy); }
  }

  /** The first four bytes of a near match, one at a time after clearing them. */
  method FirstFour(buf: array<byte>, op: nat, p: nat)
    requires p <= op && op + 4 <= buf.Length
    modifies buf
    ensures forall i :: 0 <= i < op || op + 4 <= i < buf.Length ==> buf[i] == old(buf[i])
    ensures forall i :: op <= i < op + 4 && p < op ==> buf[i] == buf[i - (op - p)]
  {
    buf[op], buf[op + 1], buf[op + 2], buf[op + 3] := 0, 0, 0, 0;
    buf[op] := buf[p];
    buf[op + 1] := buf[p + 1];
    buf[op + 2] := buf[p + 2];
    buf[op + 3] := buf[p + 3];
  }

  /** The first eight bytes of a match, and where to go on copying from. */
  method FirstEight(buf: array<byte>, op: nat, offset: nat) returns (m: nat)
    requires offset <= op && op + 8 <= buf.Length
    modifies buf
    ensures m <= op
    ensures offset >= 8 ==> op + 8 - m == offset
    ensures 1 <= offset < 8 ==> op + 8 - m == SpreadSteps(offset) * offset
    ensures forall i :: 0 <= i < op || op + 8 <= i < buf.Length ==> buf[i] == old(buf[i])
    ensures offset > 0 ==> forall i :: op <= i < op + 8 ==> buf[i] == buf[i - offset]
  {
    var p: int := op - offset;
    if offset < 8 {
      FirstFour(buf, op, p);
      p := p + INC32[offset];
      ghost var four := buf[..];
      forall k | 0 <= k < 4 { buf[op + 4 + k] := buf[p + k]; }
      if offset > 0 {
        NextFour(four, buf[..], op, offset, p);
      }
      p := p - DEC64[offset];
    } else {
      forall k | 0 <= k < 8 { buf[op + k] := buf[p + k]; }
      p := p + 8;
    }
    m := p;
  }

  /** The second four bytes continue the period the first four began. */
  lemma NextFour(s: Bytes, t: Bytes, op: nat, offset: nat, p: nat)
    requires 1 <= offset < 8 && offset <= op && op + 8 <= |s| == |t| && p == op - offset + INC32[offset]
    requires forall i :: op <= i < op + 4 ==> s[i] == s[i - offset]
    requires forall i :: 0 <= i < op + 4 ==> t[i] == s[i]
    requires forall i :: op + 4 <= i < op + 8 ==> t[i] == s[i - (op + 4 - p)]
    ensures forall i :: op <= i < op + 8 ==> t[i] == t[i - offset]
  {
    assert t[op + 4] == s[p] && t[op + 5] == s[p + 1] && t[op + 6] == s[p + 2] && t[op + 7] == s[p + 3];
    forall i | op + 4 <= i < op + 8
      ensures t[i] == t[i - offset]
    {
      var k := i - op - 4;
      if offset == 1 { assert s[op + 3] == s[op + 2] == s[op + 1] == s[op]; }
      else if offset == 2 { assert s[op + 3] == s[op + 1] && s[op + 2] == s[op]; }
      else if offset == 3 {
        assert s[op] == s[op - 3] && s[op + 1] == s[op - 2] && s[op + 2] == s[op - 1] && s[op + 3] == s[op];
      }
      else if offset == 4 { assert s[op + k] == s[op + k - 4]; }
    }
  }

  // ---------------------------------------------------------------- lengths and literals

  /** `read_variable_length`: -1 stands for `rvl_error`. */
  method ReadVariableLength(src: Bytes, ip0: nat, ilimit: int, initialCheck: bool) returns (length: int, ip: nat)
    requires ip0 <= |src| && ilimit < |src| && (initialCheck || ip0 < |src|)
    ensures ip0 <= ip <= |src|
    ensures length < 0 <==> ReadVar(src, ip0, ilimit).None?
    ensures length >= 0 ==> ReadVar(src, ip0, ilimit) == Some((length, ip))
  {
    length, ip := 0, ip0;
    if initialCheck && ip >= ilimit { return -1, ip; }
    while true
      invariant ip0 <= ip < |src| && length >= 0
      invariant ReadVar(src, ip0, ilimit).Some? <==> ReadVar(src, ip, ilimit).Some?
      invariant ReadVar(src, ip0, ilimit).Some? ==>
        ReadVar(src, ip0, ilimit).value.0 == ReadVar(src, ip, ilimit).value.0 + length
        && ReadVar(src, ip0, ilimit).value.1 == ReadVar(src, ip, ilimit).value.1
      decreases |src| - ip
    {
      var s: int := src[ip];
      ip := ip + 1;
      if ip > ilimit { return -1, ip; }
      length := length + s;
      if s != 255 { return length, ip; }
    }
  }

  /** `LZ4_memmove` from the source. */
  method CopyExactly(buf: array<byte>, dst: nat, src: Bytes, start: nat, n: nat)
    requires start + n <= |src| && dst + n <= buf.Length
    modifies buf
    ensures buf[dst..dst + n] == src[start..start + n]
    ensures buf[..dst + n] == old(buf[..dst]) + src[start..start + n]
    ensures forall i :: 0 <= i < dst || dst + n <= i < buf.Length ==> buf[i] == old(buf[i])
  {
    forall k | 0 <= k < n { buf[dst + k] := src[start + k]; }
  }

  /** How many of `ll` literals are copied, given the bytes left in the source and in the destination. */
  function LiteralExtent(left: int, room: int, ll: nat, partialDecoding: bool): (Status, int) {
    if ll > room - MFLIMIT || ll > left - (2 + 1 + LASTLITERALS) then
      if partialDecoding then
        var n := Min(Min(ll, left), room);
        (if n == room || n >= left - 2 then Ended else More, n)
      else if ll != left || ll > room then (Failed, 0)
      else (Ended, ll)
    else (More, ll)
  }

  /** The copy of `length` literals, which may turn out to be the last ones. */
  method CopyLiterals(src: Bytes, buf: array<byte>, ip0: nat, op0: nat, oend: nat, length0: nat, partialDecoding: bool)
    returns (status: Status, length: int)
    requires ip0 <= |src| && op0 <= oend <= buf.Length
    modifies buf
    ensures forall i :: 0 <= i < op0 || oend <= i < buf.Length ==> buf[i] == old(buf[i])
    ensures length >= 0 && (status, length) == LiteralExtent(|src| - ip0, oend - op0, length0, partialDecoding)
    ensures length <= Min(|src| - ip0, oend - op0) && buf[op0..op0 + length] == src[ip0..ip0 + length]
  {
    var cpy := op0 + length0;
    if cpy > oend - MFLIMIT || ip0 + length0 > |src| - (2 + 1 + LASTLITERALS) {
      status, length := LastLiterals(|src|, ip0, op0, oend, length0, partialDecoding);
      hide LiteralExtent;
      CopyExactly(buf, op0, src, ip0, length);
    } else {
      WildCopy8(buf, op0, src, ip0, cpy);
      status, length := More, length0;
    }
  }

  /** How many literals are copied near the end of the source or of the destination. */
  method LastLiterals(iend: nat, ip0: nat, op0: nat, oend: nat, length0: nat, partialDecoding: bool)
    returns (status: Status, length: int)
    requires ip0 <= iend && op0 <= oend
    requires op0 + length0 > oend - MFLIMIT || ip0 + length0 > iend - (2 + 1 + LASTLITERALS)
    ensures (status, length) == LiteralExtent(iend - ip0, oend - op0, length0, partialDecoding)
    ensures 0 <= length <= Min(iend - ip0, oend - op0)
  {
    length := length0;
    var cpy := op0 + length;
    if partialDecoding {
      if ip0 + length > iend {
        length := iend - ip0;
        cpy := op0 + length;
      }
      if cpy > oend {
        cpy := oend;
        length := oend - op0;
      }
    } else if ip0 + length != iend || cpy > oend {
      return Failed, 0;
    }
    status := if !partialDecoding || cpy == oend || ip0 + length >= iend - 2 then Ended else More;
  }

  /** What the literal step left behind agrees with `LiteralStage`. `v` is the output so far with
      everything that precedes it, `added` what was appended to it. */
  ghost predicate LiteralsDone(j: Job, ip0: nat, v: Bytes, status: Status, ip: nat, added: Bytes, shortcut: bool)
    requires ip0 < |j.src| && |v| <= j.cap
  {
    match LiteralStage(j, ip0, v)
    case LitError => status == Failed
    case LitEnd(o) => status == Ended && o == v + added
    case LitMore(o, p) => status == More && ip == p && o == v + added && shortcut == Shortcut(j, ip0, v)
  }

  /** Past the shortcut, the stage is decided by the length read and by `LiteralExtent`. */
  lemma LiteralStageLong(j: Job, ip0: nat, v: Bytes, status: Status, ip: nat, n: int)
    requires ip0 < |j.src| && |v| <= j.cap && !Shortcut(j, ip0, v)
    requires match ReadNibbleVar(j.src, ip0 + 1, j.src[ip0] / 16, |j.src| - 15)
      case None => status == Failed
      case Some((ll, p)) => (status, n) == LiteralExtent(|j.src| - p, j.cap - |v|, ll, j.partialDecoding) && ip == p + n
    requires status != Failed ==> 0 <= n <= ip <= |j.src|
    ensures status != Failed ==> LiteralsDone(j, ip0, v, status, ip, j.src[ip - n..ip], false)
    ensures status == Failed ==> LiteralStage(j, ip0, v).LitError?
  {
    hide ReadNibbleVar;
    match ReadNibbleVar(j.src, ip0 + 1, j.src[ip0] / 16, |j.src| - 15)
    case None =>
    case Some((ll, p)) =>
      assert ip - n == p;
  }

  /** The token's length nibble and, if it is full, the bytes that extend it. */
  method ReadLength(src: Bytes, ip0: nat, nibble: nat, ilimit: int, initialCheck: bool) returns (length: int, ip: nat)
    requires ip0 <= |src| && ilimit < |src| && (initialCheck || ip0 < |src|) && nibble < 16
    ensures ip0 <= ip <= |src|
    ensures length < 0 <==> ReadNibbleVar(src, ip0, nibble, ilimit).None?
    ensures length >= 0 ==> ReadNibbleVar(src, ip0, nibble, ilimit) == Some((length, ip))
  {
    length, ip := nibble, ip0;
    if nibble == 15 {
      var addl;
      addl, ip := ReadVariableLength(src, ip, ilimit, initialCheck);
      length := if addl < 0 then -1 else length + addl;
    }
  }

  /** Literals whose length did not allow the shortcut. */
  method LongLiterals(src: Bytes, buf: array<byte>, ip0: nat, op0: nat, oend: nat, partialDecoding: bool, ghost j: Job,
                      ghost v: Bytes)
    returns (status: Status, ip: nat, op: nat)
    requires j.src == src && j.partialDecoding == partialDecoding && |v| + (oend - op0) == j.cap
    requires ip0 < |src| && op0 <= oend <= buf.Length && !Shortcut(j, ip0, v)
    modifies buf
    ensures forall i :: 0 <= i < op0 || oend <= i < buf.Length ==> buf[i] == old(buf[i])
    ensures op0 <= op <= oend && ip <= |src|
    ensures LiteralsDone(j, ip0, v, status, ip, buf[op0..op], false)
  {
    hide ReadNibbleLen, ReadNibbleVar, Shortcut, LiteralExtent, LiteralStage;
    var length;
    length, ip := ReadLength(src, ip0 + 1, src[ip0] / 16, |src| - RUN_MASK, true);
    op := op0;
    if length < 0 {
      LiteralStageLong(j, ip0, v, Failed, ip, 0);
      return Failed, ip, op;
    }
    var n;
    status, n := CopyLiterals(src, buf, ip, op, oend, length, partialDecoding);
    LiteralStageLong(j, ip0, v, status, ip + n, n);
    ip, op := ip + n, op + n;
  }

  /** Literal length and literal copy, with the shortcut of sixteen bytes at once. */
  method LiteralStep(src: Bytes, buf: array<byte>, ip0: nat, op0: nat, oend: nat, partialDecoding: bool, ghost j: Job,
                     ghost v: Bytes)
    returns (status: Status, ip: nat, op: nat, shortcut: bool)
    requires j.src == src && j.partialDecoding == partialDecoding && |v| + (oend - op0) == j.cap
    requires ip0 < |src| && op0 <= oend <= buf.Length
    modifies buf
    ensures forall i :: 0 <= i < op0 || oend <= i < buf.Length ==> buf[i] == old(buf[i])
    ensures op0 <= op <= oend && ip <= |src|
    ensures LiteralsDone(j, ip0, v, status, ip, buf[op0..op], shortcut)
  {
    var length := src[ip0] / 16;
    if length != RUN_MASK && ip0 + 1 < |src| - 16 && op0 <= oend - 32 {
      forall k | 0 <= k < 16 { buf[op0 + k] := src[ip0 + 1 + k]; }
      op, ip := op0 + length, ip0 + 1 + length;
      assert buf[op0..op] == src[ip0 + 1..ip];
      status, shortcut := More, true;
    } else {
      status, ip, op := LongLiterals(src, buf, ip0, op0, oend, partialDecoding, j, v);
      shortcut := false;
    }
  }

  // ---------------------------------------------------------------- matches

  /** The byte at position `i` of the buffer, where positions before `low` lie in the external dictionary. */
  function VirtualByte(ext: Bytes, low: nat, b: Bytes, i: int): byte
    requires low - |ext| <= i < |b|
  {
    if i >= low then b[i] else ext[|ext| - (low - i)]
  }

  /** A match reproduced byte by byte from the dictionary and the buffer is the match copy of the format. */
  lemma VirtualMatch(ext: Bytes, low: nat, b0: Bytes, b1: Bytes, op: nat, offset: nat, n: nat)
    requires low <= op && op + n <= |b1| == |b0| && 1 <= offset <= op - low + |ext|
    requires forall i :: low <= i < op ==> b1[i] == b0[i]
    requires forall i :: op <= i < op + n ==> b1[i] == VirtualByte(ext, low, b1, i - offset)
    ensures ext + b1[low..op + n] == CopyMatch(ext + b0[low..op], offset, n)
  {
    var v := ext + b0[low..op];
    var r := ext + b1[low..op + n];
    assert b1[low..op] == b0[low..op];
    assert r[..|v|] == v;
    forall i | |v| <= i < |r|
      ensures r[i] == r[i - offset]
    {
      var k := i - |ext| + low;
      assert r[i] == b1[k] == VirtualByte(ext, low, b1, k - offset);
    }
    CopyMatchUnique(v, offset, n, r);
  }

  /** A match that starts `back` bytes before the end of the external dictionary. */
  method CopyFromExtDict(buf: array<byte>, op0: nat, ext: Bytes, lowPrefix: nat, back: nat, length: nat)
    requires 1 <= back <= |ext| && lowPrefix <= op0 && op0 + length <= buf.Length
    modifies buf
    ensures forall i :: 0 <= i < op0 || op0 + length <= i < buf.Length ==> buf[i] == old(buf[i])
    ensures forall i :: op0 <= i < op0 + Min(back, length) ==> buf[i] == ext[i - op0 + (|ext| - back)]
    ensures forall i :: op0 + back <= i < op0 + length ==> buf[i] == buf[i - (op0 + back - lowPrefix)]
  {
    if length <= back {
      forall k | 0 <= k < length { buf[op0 + k] := ext[|ext| - back + k]; }
    } else {
      var copySize := back;
      var restSize := length - copySize;
      forall k | 0 <= k < copySize { buf[op0 + k] := ext[|ext| - copySize + k]; }
      var op := op0 + copySize;
      if restSize > op - lowPrefix {
        var endOfMatch := op + restSize;
        var copyFrom := lowPrefix;
        while op < endOfMatch
          invariant op0 + copySize <= op <= endOfMatch && copyFrom == lowPrefix + (op - op0 - copySize)
          invariant forall i :: 0 <= i < op0 || op <= i < buf.Length ==> buf[i] == old(buf[i])
          invariant forall i :: op0 <= i < op0 + back ==> buf[i] == ext[i - op0 + (|ext| - back)]
          invariant forall i :: op0 + back <= i < op ==> buf[i] == buf[i - (op0 + back - lowPrefix)]
        {
          buf[op] := buf[copyFrom];
          op, copyFrom := op + 1, copyFrom + 1;
        }
      } else {
        forall k | 0 <= k < restSize { buf[op + k] := buf[lowPrefix + k]; }
      }
    }
  }

  /** The end of the output in partial decoding, where a match may stop anywhere. */
  method CopyPartial(buf: array<byte>, op0: nat, offset: nat, mlen: nat)
    requires offset <= op0 && op0 + mlen <= buf.Length
    modifies buf
    ensures forall i :: 0 <= i < op0 || op0 + mlen <= i < buf.Length ==> buf[i] == old(buf[i])
    ensures offset > 0 ==> forall i :: op0 <= i < op0 + mlen ==> buf[i] == buf[i - offset]
  {
    var op, m := op0, op0 - offset;
    if m + mlen > op {
      while op < op0 + mlen
        invariant op0 <= op <= op0 + mlen && m == op - offset
        invariant forall i :: 0 <= i < op0 || op0 + mlen <= i < buf.Length ==> buf[i] == old(buf[i])
        invariant offset > 0 ==> forall i :: op0 <= i < op ==> buf[i] == buf[i - offset]
      {
        buf[op] := buf[m];
        op, m := op + 1, m + 1;
      }
    } else {
      forall k | 0 <= k < mlen { buf[op + k] := buf[m + k]; }
    }
  }

  /** How many of `ml` match bytes are copied, given the room left, and whether decoding goes on. */
  function MatchExtent(inExt: bool, room: int, ml: nat, partialDecoding: bool): (Status, int) {
    if inExt then
      if ml <= room - LASTLITERALS then (More, ml) else if partialDecoding then (More, Min(ml, room)) else (Failed, 0)
    else if partialDecoding && ml > room - 12 then
      if ml >= room then (Ended, room) else (More, ml)
    else if ml > room - LASTLITERALS then (Failed, 0)
    else (More, ml)
  }

  /** What the match step left behind agrees with `MatchStage`; `now` is all of the output after it. */
  ghost predicate MatchDone(j: Job, pos: nat, v: Bytes, nibble: nat, shortcut: bool, status: Status, ip: nat,
                            now: Bytes)
    requires pos + 3 <= |j.src| && |v| <= j.cap && (shortcut ==> |v| + 18 <= j.cap)
  {
    match MatchStage(j, pos, v, nibble, shortcut)
    case MatchError => status == Failed
    case MatchUnspecified => true
    case MatchEnd(o) => status == Ended && o == now
    case MatchMore(o, p) => status == More && ip == p && o == now
  }

  predicate TakesShortcut(j: Job, v: Bytes, nibble: nat, shortcut: bool, offset: nat) {
    shortcut && nibble < 15 && offset >= 8 && |v| - offset >= j.ext
  }

  /** Past the shortcut, the stage is decided by the length read, the offset and `MatchExtent`. */
  lemma MatchStageLong(j: Job, pos: nat, v: Bytes, nibble: nat, shortcut: bool, status: Status, ip: nat, now: Bytes)
    requires pos + 3 <= |j.src| && |v| <= j.cap && (shortcut ==> |v| + 18 <= j.cap)
    requires !TakesShortcut(j, v, nibble, shortcut, LE16(j.src, pos))
    requires match ReadNibbleVar(j.src, pos + 2, nibble, |j.src| - LASTLITERALS + 1)
      case None => status == Failed
      case Some((mc, p)) =>
        var offset := LE16(j.src, pos);
        if offset > |v| then status == Failed
        else
          ip == p &&
          var (st, n) := MatchExtent(|v| - offset < j.ext, j.cap - |v|, mc + MINMATCH, j.partialDecoding);
          status == st && n >= 0 && (st != Failed && offset > 0 ==> now == CopyMatch(v, offset, n))
    ensures MatchDone(j, pos, v, nibble, shortcut, status, ip, now)
  {
    hide ReadNibbleVar, LE16, CopyMatch;
    match ReadNibbleVar(j.src, pos + 2, nibble, |j.src| - LASTLITERALS + 1)
    case None =>
    case Some((mc, p)) =>
      var offset := LE16(j.src, pos);
      if 1 <= offset <= |v| {
        var (st, n) := MatchExtent(|v| - offset < j.ext, j.cap - |v|, mc + MINMATCH, j.partialDecoding);
        MatchStageCopies(j, pos, v, nibble, shortcut, mc, p, st, n);
        hide MatchStage, MatchExtent;
      }
  }

  lemma MatchStageCopies(j: Job, pos: nat, v: Bytes, nibble: nat, shortcut: bool, mc: nat, p: nat, st: Status, n: nat)
    requires pos + 3 <= |j.src| && |v| <= j.cap && (shortcut ==> |v| + 18 <= j.cap)
    requires 1 <= LE16(j.src, pos) <= |v| && !TakesShortcut(j, v, nibble, shortcut, LE16(j.src, pos))
    requires ReadNibbleVar(j.src, pos + 2, nibble, |j.src| - LASTLITERALS + 1) == Some((mc, p))
    requires (st, n) == MatchExtent(|v| - LE16(j.src, pos) < j.ext, j.cap - |v|, mc + MINMATCH, j.partialDecoding)
    ensures var r, c := MatchStage(j, pos, v, nibble, shortcut), CopyMatch(v, LE16(j.src, pos), n);
      match st
      case More => r == MatchMore(c, p)
      case Ended => r == MatchEnd(c)
      case Failed => r == MatchError
  {
    hide ReadNibbleVar, LE16, CopyMatch;
  }

  /** The copy of a match: from the external dictionary, at the end of a partial decoding, or within the
      block. `low` is where the prefix starts in `buf`. */
  method CopyMatchStep(buf: array<byte>, op0: nat, oend: nat, offset: nat, ml: nat, low: nat, ext: Bytes,
                       partialDecoding: bool)
    returns (status: Status, n: int)
    requires low <= op0 <= oend <= buf.Length && offset <= op0 - low + |ext| && MINMATCH <= ml
    requires partialDecoding || op0 + 12 <= oend
    modifies buf
    ensures forall i :: 0 <= i < op0 || oend <= i < buf.Length ==> buf[i] == old(buf[i])
    ensures (status, n) == MatchExtent(op0 - offset < low, oend - op0, ml, partialDecoding) && 0 <= n <= oend - op0
    ensures status != Failed && offset > 0 ==>
      forall i :: op0 <= i < op0 + n ==> buf[i] == VirtualByte(ext, low, buf[..], i - offset)
  {
    var m: int := op0 - offset;
    if m < low {
      var length := ml;
      if op0 + length > oend - LASTLITERALS {
        if !partialDecoding { return Failed, 0; }
        length := Min(length, oend - op0);
      }
      CopyFromExtDict(buf, op0, ext, low, low - m, length);
      return More, length;
    }
    var cpy := op0 + ml;
    if partialDecoding && cpy > oend - 12 {
      var mlen := Min(ml, oend - op0);
      CopyPartial(buf, op0, offset, mlen);
      return if op0 + mlen == oend then Ended else More, mlen;
    }
    var ok := CopyWithinBlock(buf, op0, offset, ml, oend);
    if ok { status, n := More, ml; } else { status, n := Failed, 0; }
  }

  /** The second stage of the shortcut: eighteen bytes at once, from at least eight bytes back. */
  method CopyEighteen(buf: array<byte>, op: nat, offset: nat)
    requires 8 <= offset <= op && op + 18 <= buf.Length
    modifies buf
    ensures forall i :: 0 <= i < op || op + 18 <= i < buf.Length ==> buf[i] == old(buf[i])
    ensures forall i :: op <= i < op + 18 ==> buf[i] == buf[i - offset]
  {
    var m := op - offset;
    forall k | 0 <= k < 8 { buf[op + k] := buf[m + k]; }
    forall k | 0 <= k < 8 { buf[op + 8 + k] := buf[m + 8 + k]; }
    forall k | 0 <= k < 2 { buf[op + 16 + k] := buf[m + 16 + k]; }
  }

  /** Length and copy of a match for which the shortcut is not taken. */
  method LongMatch(src: Bytes, buf: array<byte>, ip0: nat, op0: nat, oend: nat, nibble: nat, offset: nat,
                   partialDecoding: bool, low: nat, ext: Bytes, ghost j: Job, ghost v: Bytes, ghost shortcut: bool)
    returns (status: Status, ip: nat, op: nat)
    requires j.src == src && j.partialDecoding == partialDecoding && j.ext == |ext|
    requires low <= op0 <= oend <= buf.Length && |ext| + (oend - low) == j.cap && v == ext + buf[..][low..op0]
    requires ip0 + 3 <= |src| && nibble < 16 && offset == LE16(src, ip0)
    requires shortcut ==> op0 + 18 <= oend
    requires partialDecoding || op0 + 12 <= oend
    requires !TakesShortcut(j, v, nibble, shortcut, offset)
    modifies buf
    ensures forall i :: 0 <= i < op0 || oend <= i < buf.Length ==> buf[i] == old(buf[i])
    ensures op0 <= op <= oend && ip <= |src| && (status == More ==> ip0 < ip < |src|)
    ensures MatchDone(j, ip0, v, nibble, shortcut, status, ip, ext + buf[..][low..op])
  {
    hide ReadNibbleVar, LE16, CopyMatch, MatchStage, MatchExtent, MatchDone, VirtualByte, TakesShortcut;
    ghost var b0 := buf[..];
    op := op0;
    var length;
    length, ip := ReadLength(src, ip0 + 2, nibble, |src| - LASTLITERALS + 1, false);
    if length < 0 || op - offset + |ext| < low {
      MatchStageLong(j, ip0, v, nibble, shortcut, Failed, ip, v);
      return Failed, ip, op;
    }
    var n;
    status, n := CopyMatchStep(buf, op, oend, offset, length + MINMATCH, low, ext, partialDecoding);
    op := op + n;
    if offset > 0 && status != Failed { VirtualMatch(ext, low, b0, buf[..], op0, offset, n); }
    MatchStageLong(j, ip0, v, nibble, shortcut, status, ip, ext + buf[..][low..op]);
  }

  /** Offset, match length and match copy. */
  method MatchStep(src: Bytes, buf: array<byte>, ip0: nat, op0: nat, oend: nat, nibble: nat, shortcut: bool,
                   partialDecoding: bool, low: nat, ext: Bytes, ghost j: Job, ghost v: Bytes)
    returns (status: Status, ip: nat, op: nat)
    requires j.src == src && j.partialDecoding == partialDecoding && j.ext == |ext|
    requires low <= op0 <= oend <= buf.Length && |ext| + (oend - low) == j.cap && v == ext + buf[..][low..op0]
    requires ip0 + 3 <= |src| && nibble < 16
    requires shortcut ==> op0 + 18 <= oend
    requires partialDecoding || op0 + 12 <= oend
    modifies buf
    ensures forall i :: 0 <= i < op0 || oend <= i < buf.Length ==> buf[i] == old(buf[i])
    ensures op0 <= op <= oend && ip <= |src| && (status == More ==> ip0 < ip < |src|)
    ensures MatchDone(j, ip0, v, nibble, shortcut, status, ip, ext + buf[..][low..op])
  {
    hide LE16, CopyMatch, MatchStage, MatchDone, VirtualByte;
    ghost var b0 := buf[..];
    var offset := LE16(src, ip0);
    if shortcut && nibble != ML_MASK && offset >= 8 && op0 - offset >= low {
      CopyEighteen(buf, op0, offset);
      NearMatch(ext, low, buf[..], op0, offset, nibble + MINMATCH);
      VirtualMatch(ext, low, b0, buf[..], op0, offset, nibble + MINMATCH);
      ShortcutMatch(j, ip0, v, nibble);
      return More, ip0 + 2, op0 + nibble + MINMATCH;
    }
    status, ip, op := LongMatch(src, buf, ip0, op0, oend, nibble, offset, partialDecoding, low, ext, j, v, shortcut);
  }

  /** A match that starts within the prefix. */
  lemma NearMatch(ext: Bytes, low: nat, b: Bytes, op: nat, offset: nat, n: nat)
    requires low + offset <= op && op + n <= |b| && offset > 0
    requires forall i :: op <= i < op + n ==> b[i] == b[i - offset]
    ensures forall i :: op <= i < op + n ==> b[i] == VirtualByte(ext, low, b, i - offset)
  {
  }

  lemma ShortcutMatch(j: Job, pos: nat, v: Bytes, nibble: nat)
    requires pos + 3 <= |j.src| && |v| + 18 <= j.cap && TakesShortcut(j, v, nibble, true, LE16(j.src, pos))
    ensures var c := CopyMatch(v, LE16(j.src, pos), nibble + MINMATCH);
      && MatchStage(j, pos, v, nibble, true) == MatchMore(c, pos + 2)
      && MatchDone(j, pos, v, nibble, true, More, pos + 2, c)
  {
    hide CopyMatch, LE16;
  }

  lemma RunStopsInLiterals(j: Job, ip: nat, v: Bytes)
    requires ip < |j.src| && |v| <= j.cap && !LiteralStage(j, ip, v).LitMore?
    ensures SafeRun(j, ip, v) == (match LiteralStage(j, ip, v) case LitError => Error case LitEnd(o) => Done(o))
  {
    hide LiteralStage, MatchStage;
  }

  lemma LiteralMoreFacts(j: Job, ip: nat, v: Bytes)
    requires ip < |j.src| && |v| <= j.cap && LiteralStage(j, ip, v).LitMore?
    ensures var r := LiteralStage(j, ip, v);
      && ip < r.pos && r.pos + 3 <= |j.src| && |r.out| <= j.cap
      && (!j.partialDecoding ==> |r.out| + 12 <= j.cap)
      && (Shortcut(j, ip, v) ==> |r.out| + 18 <= j.cap)
  {
    hide LiteralStage;
  }

  lemma RunAfterMatch(j: Job, ip: nat, v: Bytes, pos: nat, v2: Bytes, shortcut: bool)
    requires ip < |j.src| && |v| <= j.cap
    requires LiteralStage(j, ip, v) == LitMore(v2, pos) && shortcut == Shortcut(j, ip, v)
    ensures pos + 3 <= |j.src| && |v2| <= j.cap && (shortcut ==> |v2| + 18 <= j.cap)
    ensures SafeRun(j, ip, v) == (match MatchStage(j, pos, v2, j.src[ip] % 16, shortcut)
      case MatchError => Error
      case MatchUnspecified => Unspecified
      case MatchEnd(o) => Done(o)
      case MatchMore(o, p) => SafeRun(j, p, o))
  {
    hide LiteralStage, MatchStage, Shortcut;
  }

  /** What one sequence did agrees with `SafeRun`; `now` is all of the output after it. */
  ghost predicate SequenceDone(j: Job, ip0: nat, v: Bytes, status: Status, ip: nat, now: Bytes)
    requires ip0 < |j.src| && |v| <= j.cap
  {
    SafeRun(j, ip0, v) == Unspecified ||
    match status
    case Failed => SafeRun(j, ip0, v) == Error
    case Ended => SafeRun(j, ip0, v) == Done(now)
    case More => ip < |j.src| && |now| <= j.cap && SafeRun(j, ip0, v) == SafeRun(j, ip, now)
  }

  /** One turn of the main loop. */
  method SequenceStep(src: Bytes, buf: array<byte>, ip0: nat, op0: nat, oend: nat, partialDecoding: bool, low: nat,
                      ext: Bytes, ghost j: Job)
    returns (status: Status, ip: nat, op: nat)
    requires ip0 < |src| && low <= op0 <= oend <= buf.Length
    requires j == Job(src, |ext| + (oend - low), |ext|, partialDecoding)
    modifies buf
    ensures forall i :: 0 <= i < op0 || oend <= i < buf.Length ==> buf[i] == old(buf[i])
    ensures op0 <= op <= oend && ip <= |src| && (status == More ==> ip0 < ip < |src|)
    ensures SequenceDone(j, ip0, ext + old(buf[low..op0]), status, ip, ext + buf[low..op])
  {
    hide LiteralStage, MatchStage, SafeRun, Shortcut, MatchExtent, LiteralExtent;
    ghost var v := ext + buf[low..op0];
    var shortcut;
    status, ip, op, shortcut := LiteralStep(src, buf, ip0, op0, oend, partialDecoding, j, v);
    ghost var v2 := ext + buf[low..op];
    OutputGrows(ext, old(buf[..]), buf[..], low, op0, op);
    if status != More {
      RunStopsInLiterals(j, ip0, v);
      return;
    }
    LiteralMoreFacts(j, ip0, v);
    ghost var pos := ip;
    assert buf[..][low..op] == buf[low..op];
    status, ip, op := MatchStep(src, buf, ip, op, oend, src[ip0] % 16, shortcut, partialDecoding, low, ext, j, v2);
    assert buf[..][low..op] == buf[low..op];
    RunAfterMatch(j, ip0, v, pos, v2, shortcut);
  }

  /** What was written at `op0` comes after all that was there. */
  lemma OutputGrows(ext: Bytes, before: Bytes, after: Bytes, low: nat, op0: nat, op: nat)
    requires low <= op0 <= op <= |after| == |before| && forall i :: 0 <= i < op0 ==> after[i] == before[i]
    ensures ext + after[low..op] == ext + before[low..op0] + after[op0..op]
  {
    SliceJoin(after, low, op0, op);
    assert after[low..op0] == before[low..op0];
  }

  // ---------------------------------------------------------------- the decoder

  /** Where the prefix starts in `buf`. With a 64 KB prefix `lowPrefix` may lie one byte before it. */
  function Low(lowPrefix: int): nat {
    Max(lowPrefix, 0)
  }

  /**
    `LZ4_decompress_generic`. On every source and every capacity it returns; it reads nothing but the
    source and the declared history, writes nothing but the destination, and returns a count of at most
    the capacity or a negative value. Its result is that of `DecoderSpec.SafeDecode`.
  */
  method DecompressGeneric(src: Bytes, buf: array<byte>, dst: nat, outputSize: nat, partialDecoding: bool,
                           dict: DictMode, lowPrefix: int, ext: Bytes)
    returns (r: int)
    requires dst + outputSize <= buf.Length && lowPrefix <= dst
    requires dict == UsingExtDict || ext == []
    requires if dict == WithPrefix64k then lowPrefix == dst - KB64 && lowPrefix >= -1 else lowPrefix >= 0
    modifies buf
    ensures -|src| - 1 <= r <= outputSize
    ensures forall i :: 0 <= i < dst || dst + outputSize <= i < buf.Length ==> buf[i] == old(buf[i])
    ensures var history := ext + old(buf[Low(lowPrefix)..dst]);
      match SafeDecode(src, history, |ext|, outputSize, partialDecoding)
      case Error => r < 0
      case Done(o) => r >= 0 && o == history + buf[dst..dst + r]
      case Unspecified => true
  {
    hide LiteralStage, MatchStage, SafeRun;
    ghost var history := ext + buf[Low(lowPrefix)..dst];
    if outputSize == 0 {
      assert history + buf[dst..dst] == history;
      if partialDecoding { return 0; }
      return if |src| == 1 && src[0] == 0 then 0 else -1;
    }
    if |src| == 0 { return -1; }
    var ip, op := 0, dst;
    var oend := dst + outputSize;
    var low := Low(lowPrefix);
    ghost var j := Job(src, |history| + outputSize, |ext|, partialDecoding);
    while true
      invariant ip < |src| && dst <= op <= oend
      invariant forall i :: 0 <= i < dst || oend <= i < buf.Length ==> buf[i] == old(buf[i])
      invariant SafeRun(j, 0, history) == Unspecified || SafeRun(j, 0, history) == SafeRun(j, ip, ext + buf[low..op])
      decreases |src| - ip
    {
      var status;
      status, ip, op := SequenceStep(src, buf, ip, op, oend, partialDecoding, low, ext, j);
      if status == Failed { return -ip - 1; }
      if status == Ended { break; }
    }
    r := op - dst;
    assert ext + buf[low..op] == history + buf[dst..op];
  }
}
