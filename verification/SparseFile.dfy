/**
  Writing decoded blocks to a file that may have holes: runs of zeros are skipped by moving the position, and
  appear when something is written behind them.
*/
module SparseFile {
  import opened Wrappers
  import opened Lz4Format

  const GB := 0x4000_0000
  const TWO32 := 0x1_0000_0000
  const SIZE_T := 8
  const SEGMENT_SIZE_T := 0x8000 / SIZE_T

  type Unsigned = n: nat | n < TWO32

  function Zeros(n: nat): (z: Bytes)
    ensures |z| == n && forall i :: 0 <= i < n ==> z[i] == 0
  {
    seq(n, _ => 0)
  }

  lemma ZerosJoin(a: nat, b: nat)
    ensures Zeros(a) + Zeros(b) == Zeros(a + b)
  {
  }

  lemma AllZeros(s: Bytes)
    requires forall i :: 0 <= i < |s| ==> s[i] == 0
    ensures s == Zeros(|s|)
  {
  }

  /** An open file: its bytes and the position of the next access. */
  class File {
    var contents: Bytes
    var pos: nat

    /** A new file. */
    constructor ()
      ensures contents == [] && pos == 0
    {
      contents, pos := [], 0;
    }

    /** `fseek` from the current position, which may go past the end. */
    method Seek(n: nat)
      modifies `pos
      ensures pos == old(pos) + n
    {
      pos := pos + n;
    }

    /** `fwrite`: a gap before the position is filled with zeros. */
    method Write(bytes: Bytes)
      modifies this
      ensures contents == Written(old(contents), old(pos), bytes) && pos == old(pos) + |bytes|
    {
      contents, pos := Written(contents, pos, bytes), pos + |bytes|;
    }
  }

  /** What a file is after writing at `pos`; writing nothing changes nothing. */
  function Written(contents: Bytes, pos: nat, bytes: Bytes): Bytes {
    if |bytes| == 0 then contents
    else if pos >= |contents| then contents + Zeros(pos - |contents|) + bytes
    else contents[..pos] + bytes + if pos + |bytes| < |contents| then contents[pos + |bytes|..] else []
  }

  /** The file is `accepted` but for zeros at the end, the last `skips` of which are still to be skipped; with
      nothing to be skipped it is complete. */
  ghost predicate Behind(contents: Bytes, pos: nat, skips: nat, accepted: Bytes) {
    && |contents| <= pos && pos + skips == |accepted| && (skips == 0 ==> |contents| == pos)
    && contents + Zeros(|accepted| - |contents|) == accepted
  }

  /** Zeros need not be written yet. */
  lemma Skip(contents: Bytes, pos: nat, skips: nat, accepted: Bytes, n: nat)
    requires Behind(contents, pos, skips, accepted)
    ensures Behind(contents, pos, skips + n, accepted + Zeros(n))
  {
    ZerosJoin(|accepted| - |contents|, n);
    assert contents + Zeros(|accepted| - |contents|) + Zeros(n)
      == contents + (Zeros(|accepted| - |contents|) + Zeros(n));
  }

  /** Some of the skips are carried out, but not all of them. */
  lemma Moved(contents: Bytes, pos: nat, skips: nat, accepted: Bytes, n: nat)
    requires Behind(contents, pos, skips, accepted) && n < skips
    ensures Behind(contents, pos + n, skips - n, accepted)
  {
  }

  /** All skips are carried out, and something is written. */
  lemma Caught(contents: Bytes, pos: nat, skips: nat, accepted: Bytes, bytes: Bytes)
    requires Behind(contents, pos, skips, accepted) && |bytes| > 0
    ensures Written(contents, pos + skips, bytes) == accepted + bytes
    ensures Behind(accepted + bytes, |accepted + bytes|, 0, accepted + bytes)
  {
    assert accepted + bytes + Zeros(0) == accepted + bytes;
  }

  /** A machine word of the buffer is zero. */
  predicate ZeroWord(buffer: Bytes, k: nat)
    requires SIZE_T * (k + 1) <= |buffer|
  {
    forall i :: SIZE_T * k <= i < SIZE_T * (k + 1) ==> buffer[i] == 0
  }

  /** How many of `n` words are zero before the first that is not. */
  function ZeroWords(buffer: Bytes, from: nat, n: nat): (k: nat)
    requires SIZE_T * (from + n) <= |buffer|
    ensures k <= n
    decreases n
  {
    if n > 0 && ZeroWord(buffer, from) then 1 + ZeroWords(buffer, from + 1, n - 1) else 0
  }

  /** How many bytes from there on are zero. */
  function ZeroBytes(buffer: Bytes, from: nat): (k: nat)
    requires from <= |buffer|
    ensures from + k <= |buffer|
    decreases |buffer| - from
  {
    if from < |buffer| && buffer[from] == 0 then 1 + ZeroBytes(buffer, from + 1) else 0
  }

  /** The skips stored after the words from `p` on and the bytes behind them, or nothing if 32 bits do not hold them on
      the way. A part of the buffer, a segment or the bytes at the end, is skipped only if all of it is zero. */
  function SkipsFrom(buffer: Bytes, p: nat, skips: nat): Option<nat>
    requires p <= |buffer| / SIZE_T
    decreases |buffer| / SIZE_T - p
  {
    var words := |buffer| / SIZE_T;
    if p < words then
      var n := Min(SEGMENT_SIZE_T, words - p);
      var zeros := ZeroWords(buffer, p, n);
      if skips + SIZE_T * zeros >= TWO32 then None
      else SkipsFrom(buffer, p + n, if zeros == n then skips + SIZE_T * zeros else 0)
    else if |buffer| % SIZE_T != 0 then
      var zeros := ZeroBytes(buffer, SIZE_T * words);
      if skips + zeros >= TWO32 then None
      else Some(if SIZE_T * words + zeros == |buffer| then skips + zeros else 0)
    else Some(skips)
  }

  /** The skips stored after some buffers. */
  function SkipsAfter(buffers: seq<Bytes>): Option<nat> {
    if |buffers| == 0 then Some(0)
    else match SkipsAfter(buffers[..|buffers| - 1])
      case None => None
      case Some(skips) => SkipsFrom(buffers[|buffers| - 1], 0, Carried(skips))
  }

  /** The loop over words that counts leading zeros of a segment. */
  method CountZeroWords(buffer: Bytes, from: nat, n: nat) returns (nb0T: nat)
    requires SIZE_T * (from + n) <= |buffer|
    ensures nb0T == ZeroWords(buffer, from, n)
    ensures buffer[SIZE_T * from..SIZE_T * (from + nb0T)] == Zeros(SIZE_T * nb0T)
  {
    nb0T := 0;
    while nb0T < n && ZeroWord(buffer, from + nb0T)
      invariant nb0T <= n && forall i :: SIZE_T * from <= i < SIZE_T * (from + nb0T) ==> buffer[i] == 0
      invariant ZeroWords(buffer, from, n) == nb0T + ZeroWords(buffer, from + nb0T, n - nb0T)
    {
      nb0T := nb0T + 1;
    }
    AllZeros(buffer[SIZE_T * from..SIZE_T * (from + nb0T)]);
  }

  /** The loop over the bytes behind the last word. */
  method CountZeroBytes(buffer: Bytes, from: nat) returns (n: nat)
    requires from <= |buffer|
    ensures n == ZeroBytes(buffer, from) && buffer[from..from + n] == Zeros(n)
  {
    n := 0;
    while from + n < |buffer| && buffer[from + n] == 0
      invariant from + n <= |buffer| && forall i :: from <= i < from + n ==> buffer[i] == 0
      invariant ZeroBytes(buffer, from) == n + ZeroBytes(buffer, from + n)
    {
      n := n + 1;
    }
    AllZeros(buffer[from..from + n]);
  }

  /** The skips carried into a call after the precaution against overflow. */
  function Carried(storedSkips: nat): nat {
    if storedSkips > GB then storedSkips - GB else storedSkips
  }

  /** File and stored skips account for no more than what has been accepted, and for less once skips have been lost. */
  ghost predicate Short(contents: Bytes, pos: nat, skips: nat, accepted: Bytes, lost: bool) {
    |contents| <= pos && pos + skips <= |accepted| && (lost ==> pos + skips < |accepted|)
  }

  /** All is accounted for, or skips have been lost. */
  ghost predicate Kept(contents: Bytes, pos: nat, skips: nat, accepted: Bytes, lost: bool) {
    Short(contents, pos, skips, accepted, lost) && (!lost ==> Behind(contents, pos, skips, accepted))
  }

  /** One part of the buffer: zeros that are skipped, and then what is written. */
  method Part(file: File, buffer: Bytes, from: nat, mid: nat, to: nat, skips0: Unsigned, ghost accepted: Bytes,
              ghost lost: bool)
    returns (skips: Unsigned)
    requires from <= mid <= to <= |buffer| && buffer[from..mid] == Zeros(mid - from)
    requires Kept(file.contents, file.pos, skips0, accepted, lost)
    modifies file
    ensures Kept(file.contents, file.pos, skips, accepted + buffer[from..to], lost || skips0 + (mid - from) >= TWO32)
    ensures skips == if mid == to then (skips0 + (mid - from)) % TWO32 else 0
  {
    hide Behind, Written;
    ghost var all, zeros := accepted + buffer[from..mid], mid - from;
    ghost var now := lost || skips0 + zeros >= TWO32;
    if !lost { Skip(file.contents, file.pos, skips0, accepted, zeros); }
    skips := (skips0 + (mid - from)) % TWO32;
    assert Kept(file.contents, file.pos, skips, all, now);
    if mid != to {
      if !now { Caught(file.contents, file.pos, skips, all, buffer[mid..to]); }
      ghost var contents, pos := file.contents, file.pos + skips;
      file.Seek(skips);
      skips := 0;
      file.Write(buffer[mid..to]);
      WrittenLength(contents, pos, buffer[mid..to]);
      SliceJoin(buffer, from, mid, to);
      Assoc(accepted, buffer[from..mid], buffer[mid..to]);
    }
  }

  lemma WrittenLength(contents: Bytes, pos: nat, bytes: Bytes)
    requires |contents| <= pos && |bytes| > 0
    ensures |Written(contents, pos, bytes)| == pos + |bytes|
  {
  }

  /**
    `LZ4IO_fwriteSparse`: position and stored skips together account for every byte accepted as long as the skips
    fit in 32 bits, and nothing but zeros is left out of the file. Once they do not, bytes are lost for good.
  */
  method FwriteSparse(file: File, buffer: Bytes, sparseMode: bool, storedSkips: Unsigned, ghost accepted: Bytes,
                      ghost lost: bool)
    returns (skips: Unsigned)
    requires Kept(file.contents, file.pos, storedSkips, accepted, lost) && (sparseMode || (storedSkips == 0 && !lost))
    modifies file
    ensures !sparseMode ==> skips == 0 && file.contents == Written(old(file.contents), old(file.pos), buffer)
    ensures var count := if sparseMode then SkipsFrom(buffer, 0, Carried(storedSkips)) else Some(0);
      && Kept(file.contents, file.pos, skips, accepted + buffer, lost || count.None?)
      && (count.Some? ==> skips == count.value)
  {
    hide Behind, Written, Kept, SkipsFrom;
    var bufferSizeT := |buffer| / SIZE_T;
    var bufferTEnd := bufferSizeT;
    skips := storedSkips;
    if !sparseMode {
      PlainKept(file, accepted, buffer);
      file.Write(buffer);
      return 0;
    }
    if skips > GB {
      MovedKept(file.contents, file.pos, skips, accepted, lost);
      file.Seek(GB);
      skips := skips - GB;
    }
    var ptrT := 0;
    ghost var all, now := SkipsFrom(buffer, 0, skips), false;
    assert accepted + buffer[0..0] == accepted;
    while ptrT < bufferTEnd
      invariant ptrT <= bufferTEnd && ptrT + bufferSizeT == bufferTEnd == |buffer| / SIZE_T
      invariant Kept(file.contents, file.pos, skips, accepted + buffer[0..SIZE_T * ptrT], lost || now)
      invariant now ==> all == None
      invariant !now ==> all == SkipsFrom(buffer, ptrT, skips)
    {
      var seg0SizeT := Min(SEGMENT_SIZE_T, bufferSizeT);
      bufferSizeT := bufferSizeT - seg0SizeT;
      ghost var overflow;
      skips, overflow := WriteSegment(file, buffer, ptrT, seg0SizeT, skips, accepted, lost || now);
      now := now || overflow;
      ptrT := ptrT + seg0SizeT;
    }
    ghost var overflow;
    skips, overflow := WriteRest(file, buffer, skips, accepted, lost || now);
  }

  /** A segment of words. */
  method WriteSegment(file: File, buffer: Bytes, p: nat, n: nat, skips0: Unsigned, ghost accepted: Bytes,
                      ghost lost: bool)
    returns (skips: Unsigned, ghost overflow: bool)
    requires p < |buffer| / SIZE_T && n == Min(SEGMENT_SIZE_T, |buffer| / SIZE_T - p)
    requires Kept(file.contents, file.pos, skips0, accepted + buffer[0..SIZE_T * p], lost)
    modifies file
    ensures Kept(file.contents, file.pos, skips, accepted + buffer[0..SIZE_T * (p + n)], lost || overflow)
    ensures SkipsFrom(buffer, p, skips0) == if overflow then None else SkipsFrom(buffer, p + n, skips)
  {
    hide Kept;
    var nb0T := CountZeroWords(buffer, p, n);
    overflow := skips0 + SIZE_T * nb0T >= TWO32;
    skips := Part(file, buffer, SIZE_T * p, SIZE_T * (p + nb0T), SIZE_T * (p + n), skips0,
                  accepted + buffer[0..SIZE_T * p], lost);
    SliceJoin(buffer, 0, SIZE_T * p, SIZE_T * (p + n));
    Assoc(accepted, buffer[0..SIZE_T * p], buffer[SIZE_T * p..SIZE_T * (p + n)]);
  }

  /** The bytes behind the last word. */
  method WriteRest(file: File, buffer: Bytes, skips0: Unsigned, ghost accepted: Bytes, ghost lost: bool)
    returns (skips: Unsigned, ghost overflow: bool)
    requires Kept(file.contents, file.pos, skips0, accepted + buffer[0..SIZE_T * (|buffer| / SIZE_T)], lost)
    modifies file
    ensures Kept(file.contents, file.pos, skips, accepted + buffer, lost || overflow)
    ensures SkipsFrom(buffer, |buffer| / SIZE_T, skips0) == if overflow then None else Some(skips)
  {
    hide Kept;
    skips, overflow := skips0, false;
    var restStart := SIZE_T * (|buffer| / SIZE_T);
    assert buffer[0..|buffer|] == buffer;
    if |buffer| % SIZE_T != 0 {
      var zeros := CountZeroBytes(buffer, restStart);
      overflow := skips + zeros >= TWO32;
      skips := Part(file, buffer, restStart, restStart + zeros, |buffer|, skips, accepted + buffer[0..restStart], lost);
      SliceJoin(buffer, 0, restStart, |buffer|);
      Assoc(accepted, buffer[0..restStart], buffer[restStart..|buffer|]);
    }
  }

  lemma MovedKept(contents: Bytes, pos: nat, skips: nat, accepted: Bytes, lost: bool)
    requires Kept(contents, pos, skips, accepted, lost) && skips > GB
    ensures Kept(contents, pos + GB, skips - GB, accepted, lost)
  {
    if !lost { Moved(contents, pos, skips, accepted, GB); }
  }

  lemma PlainKept(file: File, accepted: Bytes, buffer: Bytes)
    requires Kept(file.contents, file.pos, 0, accepted, false)
    ensures Kept(Written(file.contents, file.pos, buffer), file.pos + |buffer|, 0, accepted + buffer, false)
  {
    Plain(file, accepted, buffer);
  }

  lemma Plain(file: File, accepted: Bytes, buffer: Bytes)
    requires Behind(file.contents, file.pos, 0, accepted)
    ensures Behind(Written(file.contents, file.pos, buffer), file.pos + |buffer|, 0, accepted + buffer)
  {
    if |buffer| == 0 {
      assert accepted + buffer == accepted;
    } else {
      Caught(file.contents, file.pos, 0, accepted, buffer);
    }
  }

  /** `LZ4IO_fwriteSparseEnd`: writing the last zero makes the hole at the end part of the file, which is then all
      that was accepted, unless skips have been lost: then it is shorter. */
  method FwriteSparseEnd(file: File, storedSkips: Unsigned, ghost accepted: Bytes, ghost lost: bool)
    requires Kept(file.contents, file.pos, storedSkips, accepted, lost)
    modifies file
    ensures if lost then |file.contents| < |accepted| else file.contents == accepted && file.pos == |accepted|
  {
    ghost var contents, pos := file.contents, file.pos;
    if storedSkips > 0 {
      if !lost { LastZero(contents, pos, storedSkips, accepted); }
      WrittenLength(contents, pos + storedSkips - 1, [0]);
      file.Seek(storedSkips - 1);
      file.Write([0]);
    }
    assert contents + Zeros(0) == contents;
  }

  lemma LastZero(contents: Bytes, pos: nat, skips: nat, accepted: Bytes)
    requires Behind(contents, pos, skips, accepted) && skips > 0
    ensures Written(contents, pos + skips - 1, [0]) == accepted
  {
    var n := |accepted| - |contents|;
    ZerosJoin(n - 1, 1);
    assert [0] == Zeros(1);
    Assoc(contents, Zeros(n - 1), [0]);
  }

  /**
    Sparse writing equals plain writing: whatever buffers are written to a new file, it ends up holding just those
    buffers if and only if it is written plainly or the stored skips always fit in 32 bits. Buffers of at most 1 GB
    are enough for that.
  */
  method WriteAll(buffers: seq<Bytes>, sparseMode: bool) returns (file: File)
    ensures fresh(file) && (file.contents == Concat(buffers) <==> !sparseMode || SkipsAfter(buffers).Some?)
    ensures (forall i :: 0 <= i < |buffers| ==> |buffers[i]| <= GB) ==> file.contents == Concat(buffers)
  {
    hide Behind, Kept;
    file := new File();
    var skips: Unsigned, i := 0, 0;
    ghost var lost := false;
    Empty();
    while i < |buffers|
      invariant i <= |buffers| && fresh(file) && (sparseMode || (skips == 0 && !lost))
      invariant Kept(file.contents, file.pos, skips, Concat(buffers[..i]), lost)
      invariant sparseMode ==> lost == SkipsAfter(buffers[..i]).None?
      invariant sparseMode && !lost ==> SkipsAfter(buffers[..i]) == Some(skips)
    {
      ghost var count := if sparseMode then SkipsFrom(buffers[i], 0, Carried(skips)) else Some(0);
      skips := FwriteSparse(file, buffers[i], sparseMode, skips, Concat(buffers[..i]), lost);
      assert buffers[..i + 1][..i] == buffers[..i];
      lost := lost || count.None?;
      i := i + 1;
    }
    FwriteSparseEnd(file, skips, Concat(buffers[..i]), lost);
    assert buffers[..i] == buffers;
    if forall i :: 0 <= i < |buffers| ==> |buffers[i]| <= GB { SmallBuffers(buffers); }
  }

  lemma Empty()
    ensures Kept([], 0, 0, [], false)
  {
  }

  /** Skips that must fit, fit. */
  lemma {:induction false} SkipsBounded(buffer: Bytes, p: nat, skips: nat)
    requires p <= |buffer| / SIZE_T && skips + (|buffer| - SIZE_T * p) < TWO32
    ensures SkipsFrom(buffer, p, skips).Some?
    ensures SkipsFrom(buffer, p, skips).value <= skips + (|buffer| - SIZE_T * p)
    decreases |buffer| / SIZE_T - p
  {
    var words := |buffer| / SIZE_T;
    if p < words {
      var n := Min(SEGMENT_SIZE_T, words - p);
      var zeros := ZeroWords(buffer, p, n);
      SkipsBounded(buffer, p + n, if zeros == n then skips + SIZE_T * zeros else 0);
    }
  }

  /** With buffers of at most 1 GB the skips never exceed 2 GB. */
  lemma {:induction false} SmallBuffers(buffers: seq<Bytes>)
    requires forall i :: 0 <= i < |buffers| ==> |buffers[i]| <= GB
    ensures SkipsAfter(buffers).Some? && SkipsAfter(buffers).value <= 2 * GB
    decreases |buffers|
  {
    if |buffers| > 0 {
      SmallBuffers(buffers[..|buffers| - 1]);
      SkipsBounded(buffers[|buffers| - 1], 0, Carried(SkipsAfter(buffers[..|buffers| - 1]).value));
    }
  }

  /** `k` buffers of `n` zeros each. */
  function ZeroBuffers(k: nat, n: nat): (buffers: seq<Bytes>)
    ensures |buffers| == k
  {
    seq(k, _ => Zeros(n))
  }

  /** 1 GB is the largest buffer with which any number of buffers is written right: with larger ones, enough buffers of
      zeros make the stored skips overflow. */
  lemma LargestBuffer(n: nat)
    ensures (forall buffers: seq<Bytes> ::
      (forall i :: 0 <= i < |buffers| ==> |buffers[i]| <= n) ==> SkipsAfter(buffers).Some?) <==> n <= GB
  {
    if n <= GB {
      forall buffers: seq<Bytes> | forall i :: 0 <= i < |buffers| ==> |buffers[i]| <= n
        ensures SkipsAfter(buffers).Some?
      {
        SmallBuffers(buffers);
      }
    } else {
      var buffers := ZeroBuffers(TWO32, n);
      ZerosGrow(TWO32, n);
      assert SkipsAfter(buffers).None?;
    }
  }

  /** Zeros are skipped one and all. */
  lemma {:induction false} ZeroSkips(buffer: Bytes, p: nat, skips: nat)
    requires p <= |buffer| / SIZE_T && buffer == Zeros(|buffer|)
    ensures var all := skips + (|buffer| - SIZE_T * p);
      if all < TWO32 then SkipsFrom(buffer, p, skips) == Some(all)
      else skips < TWO32 ==> SkipsFrom(buffer, p, skips).None?
    decreases |buffer| / SIZE_T - p
  {
    var words := |buffer| / SIZE_T;
    if p < words {
      var n := Min(SEGMENT_SIZE_T, words - p);
      AllWordsZero(buffer, p, n);
      if skips + SIZE_T * n < TWO32 { ZeroSkips(buffer, p + n, skips + SIZE_T * n); }
    } else {
      AllBytesZero(buffer, SIZE_T * words);
    }
  }

  lemma {:induction false} AllWordsZero(buffer: Bytes, from: nat, n: nat)
    requires SIZE_T * (from + n) <= |buffer| && buffer == Zeros(|buffer|)
    ensures ZeroWords(buffer, from, n) == n
    decreases n
  {
    if n > 0 { AllWordsZero(buffer, from + 1, n - 1); }
  }

  lemma {:induction false} AllBytesZero(buffer: Bytes, from: nat)
    requires from <= |buffer| && buffer == Zeros(|buffer|)
    ensures from + ZeroBytes(buffer, from) == |buffer|
    decreases |buffer| - from
  {
    if from < |buffer| { AllBytesZero(buffer, from + 1); }
  }

  lemma {:induction false} ZerosGrow(k: nat, n: nat)
    requires n > GB
    ensures SkipsAfter(ZeroBuffers(k, n)).None? || (k > 0 ==> SkipsAfter(ZeroBuffers(k, n)).value >= GB + k)
    ensures k == TWO32 ==> SkipsAfter(ZeroBuffers(k, n)).None?
    decreases k
  {
    if k > 0 {
      var buffers := ZeroBuffers(k, n);
      assert buffers[..k - 1] == ZeroBuffers(k - 1, n);
      ZerosGrow(k - 1, n);
      match SkipsAfter(buffers[..k - 1]) {
        case None =>
        case Some(skips) =>
          AfterBounded(buffers[..k - 1]);
          ZeroSkips(Zeros(n), 0, Carried(skips));
          AfterBounded(buffers);
      }
    }
  }

  /** Stored skips are 32-bit numbers. */
  lemma {:induction false} AfterBounded(buffers: seq<Bytes>)
    ensures SkipsAfter(buffers).Some? ==> SkipsAfter(buffers).value < TWO32
    decreases |buffers|
  {
    if |buffers| > 0 {
      AfterBounded(buffers[..|buffers| - 1]);
      match SkipsAfter(buffers[..|buffers| - 1]) {
        case None =>
        case Some(skips) => SkipsSmall(buffers[|buffers| - 1], 0, Carried(skips));
      }
    }
  }

  lemma {:induction false} SkipsSmall(buffer: Bytes, p: nat, skips: nat)
    requires p <= |buffer| / SIZE_T && skips < TWO32
    ensures SkipsFrom(buffer, p, skips).Some? ==> SkipsFrom(buffer, p, skips).value < TWO32
    decreases |buffer| / SIZE_T - p
  {
    var words := |buffer| / SIZE_T;
    if p < words {
      var n := Min(SEGMENT_SIZE_T, words - p);
      var zeros := ZeroWords(buffer, p, n);
      if skips + SIZE_T * zeros < TWO32 {
        SkipsSmall(buffer, p + n, if zeros == n then skips + SIZE_T * zeros else 0);
      }
    }
  }
}
