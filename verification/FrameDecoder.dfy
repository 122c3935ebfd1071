/**
  The resumable frame decoder, `LZ4F_decompress`, with its fifteen stages, its two internal buffers and the
  history it keeps for linked blocks.

  Every call may bring any number of input bytes and any output capacity. On a well-formed frame the bytes
  consumed are always a prefix of the frame and the bytes produced a prefix of its content, however the calls
  are cut; on any other input the decoder stays within its buffers.
*/
module FrameDecoder {
  import opened Wrappers
  import opened Lz4Format
  import opened FrameFormat
  import BlockDecoder
  import DecoderApi

  // ---------------------------------------------------------------- history, as plain sequences

  /** `d` ends with the last 64 KB of `h`, or with all of it. */
  ghost predicate Recent(d: Bytes, h: Bytes) {
    var n := Min(KB64, |h|);
    n <= |d| && d[|d| - n..] == h[|h| - n..]
  }

  lemma RecentSame(d: Bytes)
    ensures Recent(d, d)
  {
  }

  lemma RecentAppend(d: Bytes, h: Bytes, x: Bytes)
    requires Recent(d, h)
    ensures Recent(d + x, h + x)
  {
    RecentTrimAppend(d, h, x, |d|);
  }

  /** Keeping only the last `keep` bytes does not matter if with the new ones they make 64 KB. */
  lemma RecentTrimAppend(d: Bytes, h: Bytes, x: Bytes, keep: nat)
    requires Recent(d, h) && keep <= |d| && (keep == |d| || keep + |x| >= KB64)
    ensures Recent(d[|d| - keep..] + x, h + x)
  {
    var n0 := Min(KB64, |h|);
    var k := Min(n0, keep);
    TailOfTail(d, n0, k);
    TailOfTail(h, n0, k);
    TailOfTail(d, keep, k);
    SameTail(d[|d| - keep..], h, x, Min(KB64, |h| + |x|), k);
  }

  lemma TailOfTail(a: Bytes, n: nat, q: nat)
    requires q <= n <= |a|
    ensures a[|a| - n..][n - q..] == a[|a| - q..]
  {
  }

  /** Sequences that agree on their last `k` elements still do, on more, after the same extension. */
  lemma SameTail(a: Bytes, b: Bytes, x: Bytes, n: nat, k: nat)
    requires k <= |a| && k <= |b| && a[|a| - k..] == b[|b| - k..] && n <= k + |x|
    ensures (a + x)[|a + x| - n..] == (b + x)[|b + x| - n..]
  {
    var t := a[|a| - k..];
    assert a + x == a[..|a| - k] + (t + x);
    assert b + x == b[..|b| - k] + (t + x);
    assert (a + x)[|a + x| - n..] == (t + x)[|t + x| - n..];
    assert (b + x)[|b + x| - n..] == (t + x)[|t + x| - n..];
  }

  lemma RecentTrim(d: Bytes, h: Bytes, keep: nat)
    requires Recent(d, h) && keep <= |d| && (keep == |d| || keep >= KB64)
    ensures Recent(d[|d| - keep..], h)
  {
    RecentTrimAppend(d, h, [], keep);
    assert d[|d| - keep..] + [] == d[|d| - keep..] && h + [] == h;
  }

  /** 64 KB or more of the latest bytes are a recent history by themselves. */
  lemma RecentTail(d: Bytes, h: Bytes)
    requires |d| <= |h| && h[|h| - |d|..] == d && |d| >= KB64
    ensures Recent(d, h)
  {
    assert h[|h| - KB64..] == h[|h| - |d|..][|d| - KB64..];
  }

  /** A block decodes after a recent history as it does after all of it. */
  lemma RecentDecodes(b: Bytes, h: Bytes, d: Bytes, content: Bytes)
    requires Recent(d, h) && Encodes(b, h, content)
    ensures Encodes(b, d, content)
  {
    hide Encodes;
    DecoderApi.EncodesAfterWindow(b, h, content, Min(KB64, |h|), d);
  }

  /** How much of what precedes a block of `size` bytes still matters once the block is complete. */
  function Wanted(size: nat): nat {
    if size > KB64 then 0 else KB64 - size
  }

  /** There is room before `at` for what still matters of the history `pre` of a block of `size` bytes. */
  ghost predicate RoomFor(at: nat, pre: Bytes, size: nat) {
    Min(|pre|, Wanted(size)) <= at && (at == 0 ==> pre == [])
  }

  /** In `tmp`, the block stands at `at` and what still matters of the history `pre` right before it. */
  ghost predicate Kept(tmp: Bytes, at: nat, pre: Bytes, content: Bytes) {
    var m := Min(|pre|, Wanted(|content|));
    && m <= at && at + |content| <= |tmp|
    && tmp[at - m..at] == pre[|pre| - m..]
    && tmp[at..at + |content|] == content
    && (at == 0 ==> pre == [])
  }

  lemma KeptRecent(tmp: Bytes, at: nat, pre: Bytes, content: Bytes)
    requires Kept(tmp, at, pre, content)
    ensures Recent(tmp[..at + |content|], pre + content)
  {
    var m := Min(|pre|, Wanted(|content|));
    assert tmp[..at + |content|] == tmp[..at - m] + (tmp[at - m..at] + content);
    JoinRecent(tmp[..at - m], tmp[at - m..at], pre, content);
  }

  lemma JoinRecent(front: Bytes, x: Bytes, pre: Bytes, content: Bytes)
    requires |x| == Min(|pre|, Wanted(|content|)) && x == pre[|pre| - |x|..]
    ensures Recent(front + (x + content), pre + content)
  {
    assert (front + x)[|front|..] == x;
    assert front + (x + content) == front + x + content;
    SameTail(front + x, pre, content, Min(KB64, |pre| + |content|), |x|);
  }

  /** `a` before `i` and `b` before `j` agree on `n` elements. */
  ghost predicate SameEndAt(a: Bytes, i: nat, b: Bytes, j: nat, n: nat) {
    n <= i <= |a| && n <= j <= |b| && a[i - n..i] == b[j - n..j]
  }

  /** Copying the end of the history in front of the block. */
  lemma KeptCopied(tmp: Bytes, at: nat, pre: Bytes, content: Bytes, start: nat, d: Bytes, end: nat, copy: nat)
    requires start <= |content| && Recent(d, pre + content[..start])
    requires copy == Min(at, Wanted(|content|)) && (copy > 0 ==> end + start == |d| && SameEndAt(tmp, at, d, end, copy))
    requires at + |content| <= |tmp| && tmp[at..at + |content|] == content
    requires RoomFor(at, pre, |content|)
    ensures Kept(tmp, at, pre, content)
  {
    hide Recent, Kept, SameEndAt;
    var m := Min(|pre|, Wanted(|content|));
    if m > 0 { CopiedEnd(tmp, at, pre, content[..start], d, end, copy, m); }
    KeptIs(tmp, at, pre, content, m);
  }

  lemma CopiedEnd(tmp: Bytes, at: nat, pre: Bytes, part: Bytes, d: Bytes, end: nat, copy: nat, m: nat)
    requires Recent(d, pre + part) && m <= |pre| && m + |part| <= KB64 && m <= copy <= at <= |tmp|
    requires |part| + end == |d|
    requires SameEndAt(tmp, at, d, end, copy)
    ensures tmp[at - m..at] == pre[|pre| - m..]
  {
    hide Recent;
    RecentBefore(d, pre, part, m);
    SameEnd(tmp, at, d, end, copy, m);
    assert d[end - m..end] == d[|d| - |part| - m..|d| - |part|];
  }

  lemma KeptIs(tmp: Bytes, at: nat, pre: Bytes, content: Bytes, m: nat)
    requires m == Min(|pre|, Wanted(|content|)) && m <= at && at + |content| <= |tmp| && (at == 0 ==> pre == [])
    requires tmp[at - m..at] == pre[|pre| - m..] && tmp[at..at + |content|] == content
    ensures Kept(tmp, at, pre, content)
  {
  }

  /** In a recent history, what stood before the last `part`. */
  lemma RecentBefore(d: Bytes, pre: Bytes, part: Bytes, m: nat)
    requires Recent(d, pre + part) && m <= |pre| && m + |part| <= KB64
    ensures m + |part| <= |d| && d[|d| - |part| - m..|d| - |part|] == pre[|pre| - m..]
  {
    var h := pre + part;
    var n := Min(KB64, |h|);
    MidOfTail(d, n, |part|, m);
    MidOfTail(h, n, |part|, m);
    assert h[|pre| - m..|pre|] == pre[|pre| - m..];
  }

  lemma MidOfTail(a: Bytes, n: nat, s: nat, m: nat)
    requires s + m <= n <= |a|
    ensures a[|a| - n..][n - s - m..n - s] == a[|a| - s - m..|a| - s]
  {
  }

  /** Slices that agree on their last `n` elements agree on fewer. */
  lemma SameEnd(a: Bytes, i: nat, b: Bytes, j: nat, n: nat, m: nat)
    requires m <= n <= i <= |a| && n <= j <= |b| && a[i - n..i] == b[j - n..j]
    ensures a[i - m..i] == b[j - m..j]
  {
    var x, y := a[i - n..i], b[j - n..j];
    assert a[i - m..i] == x[n - m..];
    assert b[j - m..j] == y[n - m..];
  }

  /** A recent history right before the block is more than what must be kept. */
  lemma KeptFromRecent(tmp: Bytes, at: nat, pre: Bytes, content: Bytes)
    requires at + |content| <= |tmp| && Recent(tmp[..at], pre) && tmp[at..at + |content|] == content
    ensures Kept(tmp, at, pre, content)
  {
    hide Recent, Kept;
    var m := Min(|pre|, Wanted(|content|));
    assert pre + [] == pre;
    RecentBefore(tmp[..at], pre, [], m);
    assert at == 0 ==> pre == [] by { RecentEmpty(tmp[..at], pre); }
    KeptIs(tmp, at, pre, content, m);
  }

  lemma RecentEmpty(d: Bytes, h: Bytes)
    requires Recent(d, h)
    ensures |d| == 0 ==> h == []
    ensures Min(KB64, |h|) <= |d|
  {
  }

  // ---------------------------------------------------------------- reading the frame

  /** The input of a call continues the frame at `c0`; what comes after the frame is not constrained. */
  ghost predicate Feeds(F: Bytes, c0: nat, src: Bytes) {
    forall i {:trigger src[i]} :: 0 <= i < |src| && c0 + i < |F| ==> src[i] == F[c0 + i]
  }

  lemma FeedSlice(F: Bytes, c0: nat, src: Bytes, i: nat, j: nat)
    requires Feeds(F, c0, src) && i <= j <= |src| && c0 + j <= |F|
    ensures src[i..j] == F[c0 + i..c0 + j]
  {
  }

  lemma FeedAt(F: Bytes, c0: nat, src: Bytes, i: nat, x: Bytes)
    requires Feeds(F, c0, src) && At(F, c0 + i, x) && i + |x| <= |src|
    ensures src[i..i + |x|] == x
  {
    FeedSlice(F, c0, src, i, i + |x|);
  }

  /** Bytes gathered in a buffer so far, and some more. */
  lemma FeedMore(F: Bytes, c0: nat, src: Bytes, i: nat, j: nat, base: nat, got: Bytes, now: Bytes)
    requires Feeds(F, c0, src) && i <= j <= |src| && c0 + j <= |F| && base + |got| == c0 + i
    requires got == F[base..c0 + i] && now == got + src[i..j]
    ensures now == F[base..c0 + j]
  {
    FeedSlice(F, c0, src, i, j);
    assert F[base..c0 + j] == F[base..c0 + i] + F[c0 + i..c0 + j];
  }

  datatype Stage =
    | GetFrameHeader | StoreFrameHeader | Init | GetBlockHeader | StoreBlockHeader | CopyDirect | GetBlockChecksum
    | GetCBlock | StoreCBlock | FlushOut | GetSuffix | StoreSuffix | GetSFrameSize | StoreSFrameSize | SkipSkippable

  datatype FrameError =
    | HeaderIncomplete | ReservedFlagSet | HeaderVersionWrong | MaxBlockSizeInvalid | FrameTypeUnknown
    | HeaderChecksumInvalid
    | BlockChecksumInvalid | DecompressionFailed | FrameSizeWrong | ContentChecksumInvalid

  /** How one turn of the stage loop ends: go on, stop and return a hint of the input wanted next, or fail. */
  datatype Turn = Another | Pause(hint: nat) | Fail(error: FrameError)

  /** Where the dictionary (the history) lies: nowhere, with the caller, in the internal output buffer from
      its start, or in the destination of the current call. */
  datatype Place = Nowhere | User | Tmp | Dst(pos: nat)

  /** `LZ4F_frameInfo_t`. */
  datatype Info = Info(skippable: bool, linked: bool, blockChecksum: bool, contentChecksum: bool, contentSize: U64,
                       dictID: U32)

  predicate IsBlockSize(n: nat) {
    n == 0x1_0000 || n == 0x4_0000 || n == 0x10_0000 || n == 0x40_0000
  }

  /** What a run of calls is to follow: when `good`, a well-formed frame with the dictionary it was made with;
      otherwise the input is arbitrary. */
  datatype Track = Track(good: bool, fr: Frame, dictionary: Bytes) {
    ghost predicate Valid() {
      good ==> ValidFrame(fr, dictionary)
    }

    ghost function Content(): Bytes {
      FrameContent(fr)
    }

    ghost function Emitted(hash: Bytes -> U32): Bytes
      requires Valid() && good
    {
      EmitFrame(fr, hash)
    }
  }

  /** One call: its input, what it follows, and the numbers of bytes consumed and produced by earlier calls. */
  datatype Call = Call(src: Bytes, t: Track, c0: nat, p0: nat) {
    /** What the call has written is the next part of the content. */
    ghost predicate Wrote(out: Bytes) {
      p0 + |out| <= |t.Content()| && out == t.Content()[p0..p0 + |out|]
    }
  }

  /** Order of the stages between which no input need be consumed. */
  function Rank(s: Stage): nat {
    match s
    case GetFrameHeader => 14
    case StoreFrameHeader => 13
    case Init => 12
    case GetCBlock => 11
    case StoreCBlock => 10
    case FlushOut => 9
    case CopyDirect => 8
    case GetBlockChecksum => 7
    case GetBlockHeader => 5
    case StoreBlockHeader => 4
    case GetSuffix => 3
    case StoreSuffix => 2
    case GetSFrameSize => 2
    case StoreSFrameSize => 1
    case SkipSkippable => 0
  }

  // ---------------------------------------------------------------- the context

  class Dctx {
    const hash: Bytes -> U32
    const header: array<byte>
    var info: Info
    var stage: Stage
    var frameRemainingSize: U64
    var maxBlockSize: nat
    var maxBufferSize: nat
    var tmpIn: array<byte>
    var tmpInSize: nat
    var tmpInTarget: nat
    var tmpOutBuffer: array<byte>
    var userDict: Bytes
    var dict: Place
    var dictSize: nat
    var tmpOut: nat
    var tmpOutSize: nat
    var tmpOutStart: nat
    /** What has been fed to the two checksums since they were reset. */
    var xxh: Bytes
    var blockXxh: Bytes
    var skipChecksum: bool
    /** The block of the frame that is being decoded. */
    ghost var block: nat

    // -------------------------------------------------------------- staying within the buffers

    /** The buffers; both were allocated for the same block size. */
    ghost predicate Buffers()
      reads `tmpIn, `tmpOutBuffer, `maxBufferSize
    {
      && header.Length == MAX_FH_SIZE && header != tmpIn && header != tmpOutBuffer && tmpIn != tmpOutBuffer
      && (maxBufferSize != 0 ==>
            && tmpIn.Length >= BF_SIZE && IsBlockSize(tmpIn.Length - BF_SIZE) && tmpOutBuffer.Length == maxBufferSize
            && (maxBufferSize == tmpIn.Length - BF_SIZE || maxBufferSize == tmpIn.Length - BF_SIZE + KB128))
    }

    function BufferNeeded(): nat
      reads `maxBlockSize, `info
    {
      maxBlockSize + if info.linked then KB128 else 0
    }

    /** The buffers suit the frame that is being decoded. */
    ghost predicate Ready()
      reads `tmpIn, `tmpOutBuffer, `maxBufferSize, `maxBlockSize, `info, `tmpOut
    {
      Buffers() && IsBlockSize(maxBlockSize) && BufferNeeded() <= maxBufferSize && (!info.linked ==> tmpOut == 0)
    }

    lemma ReadySizes()
      requires Ready()
      ensures tmpIn.Length >= maxBlockSize + BF_SIZE && tmpOutBuffer.Length == maxBufferSize
      ensures maxBlockSize > 0 && tmpOutBuffer.Length >= maxBlockSize + if info.linked then KB128 else 0
    {
    }

    function CrcSize(): nat
      reads `info
    {
      if info.blockChecksum then BF_SIZE else 0
    }

    /** How much history the current block still wants in front of it. */
    function CopySize(): nat
      reads `tmpOut, `tmpOutSize
    {
      Min(Wanted(tmpOutSize), tmpOut)
    }

    ghost predicate DictShape(dstPtr: nat)
      reads `info, `userDict, `dict, `dictSize, `tmpOutBuffer
    {
      match dict
      case Nowhere => dictSize == 0
      case User => dictSize == |userDict|
      case Tmp => info.linked && dictSize <= tmpOutBuffer.Length
      case Dst(pos) => info.linked && pos + dictSize == dstPtr
    }

    /** When `k` bytes of the block in the internal buffer have been flushed: where the dictionary ends. */
    ghost predicate FlushDict(k: nat)
      reads `dict, `dictSize, `tmpOut, `tmpOutSize
    {
      if dict == Tmp then dictSize == tmpOut + k
      else (CopySize() == 0 || dictSize >= k + CopySize()) && (dictSize == 0 ==> tmpOut == 0 && k == 0)
    }

    ghost predicate FlushShape()
      reads `info, `maxBlockSize, `tmpOutBuffer, `dict, `dictSize, `tmpOut, `tmpOutSize, `tmpOutStart
    {
      && tmpOutStart <= tmpOutSize <= maxBlockSize && tmpOut + maxBlockSize <= tmpOutBuffer.Length
      && (info.linked ==> FlushDict(tmpOutStart))
    }

    static predicate IsSkippable(s: Bytes) {
      |s| >= 4 && ReadLE32(s, 0) / 16 == MAGIC_SKIPPABLE / 16
    }

    ghost predicate Apart(dst: array<byte>)
      reads `tmpIn, `tmpOutBuffer
    {
      dst != header && dst != tmpIn && dst != tmpOutBuffer
    }

    // -------------------------------------------------------------- following a frame

    /** The dictionary as bytes; `out` is what the current call has written. */
    ghost function DictBytes(out: Bytes): Bytes
      requires DictShape(|out|)
      reads `info, `userDict, `dict, `dictSize, `tmpOutBuffer, tmpOutBuffer
    {
      match dict
      case Nowhere => []
      case User => userDict
      case Tmp => tmpOutBuffer[..dictSize]
      case Dst(pos) => out[pos..]
    }

    /** With linked blocks the dictionary ends with the latest 64 KB; otherwise it is the caller's. */
    ghost predicate HistoryOk(dictionary: Bytes, produced: Bytes, out: Bytes)
      reads `info, `userDict, `dict, `dictSize, `tmpOutBuffer, tmpOutBuffer
    {
      && DictShape(|out|)
      && if info.linked then Recent(DictBytes(out), dictionary + produced) else DictBytes(out) == dictionary
    }

    ghost predicate InfoIs(h: Header)
      reads `info, `maxBlockSize
    {
      && info.linked == h.linked && info.blockChecksum == h.blockChecksum && info.contentChecksum == h.contentChecksum
      && info.contentSize == (if h.contentSize.Some? then h.contentSize.value else 0)
      && IsBlockSizeId(h.blockSizeId) && maxBlockSize == BlockSize(h.blockSizeId)
    }

    /** Checksum and remaining size after `q` bytes of the content. */
    ghost predicate Summed(content: Bytes, q: nat)
      reads `info, `xxh, `skipChecksum, `frameRemainingSize
    {
      && q <= |content| && (info.contentChecksum && !skipChecksum ==> xxh == content[..q])
      && frameRemainingSize == (if info.contentSize != 0 then |content| - q else 0)
    }

    /** The first `n` bytes of a buffer are those of the frame from `base` on. */
    static ghost predicate Gathered(F: Bytes, base: nat, buf: array<byte>, n: nat)
      reads buf
    {
      n <= buf.Length && base + n <= |F| && buf[..n] == F[base..base + n]
    }

    /** In the body of the frame. */
    ghost predicate InBody(t: Track)
      reads `info, `maxBlockSize, `block
    {
      t.good && t.Valid() && t.fr.Lz4Frame? && InfoIs(t.fr.header) && block <= |t.fr.blocks|
    }

    ghost function BlockStart(t: Track): nat
      requires InBody(t)
      reads `info, `maxBlockSize, `block
    {
      Start(t.fr, block, hash)
    }

    /** Inside block `block`, which is (`raw`) stored or compressed. */
    ghost predicate InBlock(t: Track, raw: bool)
      reads `info, `maxBlockSize, `block
    {
      InBody(t) && block < |t.fr.blocks| && t.fr.blocks[block].raw == raw
    }

    /** After `p` bytes of the content. */
    ghost predicate Reached(t: Track, p: nat, out: Bytes)
      reads `info, `xxh, `skipChecksum, `frameRemainingSize, `userDict, `dict, `dictSize, `tmpOutBuffer,
            tmpOutBuffer
    {
      Summed(t.Content(), p) && HistoryOk(t.dictionary, t.Content()[..p], out)
    }

    /** Before the body: the dictionary and the size counter are as they were given or left. */
    ghost predicate Waiting(t: Track)
      reads `dict, `userDict, `frameRemainingSize
    {
      && t.dictionary == (if dict == User then userDict else [])
      && (frameRemainingSize == 0 || (t.fr.Lz4Frame? && t.fr.header.contentSize.Some?))
    }

    ghost predicate NoOutputYet()
      reads `dict, `dictSize, `userDict
    {
      (dict == Nowhere && dictSize == 0) || (dict == User && dictSize == |userDict|)
    }

    // What holds at each stage after `c` bytes of the frame have been consumed and `p` bytes of its content
    // produced, the last of them, `out`, in the current call.

    ghost predicate AtGetFrameHeader(t: Track, c: nat, p: nat)
      reads this
    {
      stage == GetFrameHeader && NoOutputYet() && (t.good ==> c == 0 && p == 0 && Waiting(t))
    }

    ghost predicate AtStoreFrameHeader(t: Track, c: nat, p: nat)
      requires t.Valid()
      reads this, header
    {
      && stage == StoreFrameHeader && NoOutputYet() && tmpInSize < tmpInTarget <= MAX_FH_SIZE
      && (tmpInTarget == MIN_FH_SIZE || (tmpInSize >= MIN_FH_SIZE && !IsSkippable(header[..])))
      && (t.good ==>
            && p == 0 && c == tmpInSize && Gathered(t.Emitted(hash), 0, header, c) && Waiting(t)
            && (tmpInTarget == MIN_FH_SIZE || (t.fr.Lz4Frame? && tmpInTarget == HeaderSize(t.fr.header))))
    }

    ghost predicate AtInit(t: Track, c: nat, p: nat)
      requires t.Valid()
      reads this
    {
      && stage == Init && NoOutputYet() && IsBlockSize(maxBlockSize)
      && (t.good ==>
            && t.fr.Lz4Frame? && InfoIs(t.fr.header) && c == HeaderSize(t.fr.header) && p == 0
            && t.dictionary == (if dict == User then userDict else [])
            && frameRemainingSize == (if info.contentSize != 0 then |t.Content()| else 0))
    }

    /** In the body: the buffers suit the frame and the dictionary is where it is said to be. */
    ghost predicate Body(out: Bytes)
      reads `info, `userDict, `dict, `dictSize, `tmpOutBuffer, `tmpIn, `maxBufferSize, `maxBlockSize, `tmpOut
    {
      Ready() && DictShape(|out|)
    }

    /** Between two blocks. */
    ghost predicate Boundary(t: Track, p: nat, out: Bytes)
      reads `info, `maxBlockSize, `block, `xxh, `skipChecksum, `frameRemainingSize, `userDict, `dict, `dictSize,
            `tmpOutBuffer, tmpOutBuffer
    {
      InBody(t) && p == Before(t.fr, block) && Reached(t, p, out)
    }

    ghost predicate AtGetBlockHeader(t: Track, c: nat, p: nat, out: Bytes)
      reads this, tmpOutBuffer
    {
      stage == GetBlockHeader && Body(out) && (t.good ==> Boundary(t, p, out) && c == BlockStart(t))
    }

    ghost predicate AtStoreBlockHeader(t: Track, c: nat, p: nat, out: Bytes)
      reads this, tmpOutBuffer, tmpIn
    {
      && stage == StoreBlockHeader && Body(out) && tmpInSize < BH_SIZE
      && (t.good ==>
            Boundary(t, p, out) && c == BlockStart(t) + tmpInSize && Gathered(t.Emitted(hash), BlockStart(t), tmpIn,
                                                                              tmpInSize))
    }

    ghost predicate AtCopyDirect(t: Track, c: nat, p: nat, out: Bytes)
      reads this, tmpOutBuffer
    {
      && stage == CopyDirect && Body(out) && tmpInTarget <= maxBlockSize
      && (t.good ==> CopyPart(t, c, p) && Reached(t, p, out))
    }

    /** How much of a stored block has been copied; `tmpInTarget` is what remains. */
    ghost predicate CopyPart(t: Track, c: nat, p: nat)
      reads `info, `maxBlockSize, `block, `tmpInTarget, `blockXxh, `skipChecksum
    {
      && InBlock(t, true) && tmpInTarget <= |t.fr.blocks[block].data|
      && var done := |t.fr.blocks[block].data| - tmpInTarget;
      && c == BlockStart(t) + BH_SIZE + done && p == Before(t.fr, block) + done
      && (info.blockChecksum && !skipChecksum ==> blockXxh == t.fr.blocks[block].data[..done])
    }

    /** What is copied next of a stored block. */
    ghost predicate NextPiece(t: Track, piece: Bytes)
      reads `block, `tmpInTarget
    {
      && t.fr.Lz4Frame? && block < |t.fr.blocks| && |piece| <= tmpInTarget <= |t.fr.blocks[block].data|
      && var done := |t.fr.blocks[block].data| - tmpInTarget;
      piece == t.fr.blocks[block].data[done..done + |piece|]
    }

    ghost predicate AtGetBlockChecksum(t: Track, c: nat, p: nat, out: Bytes)
      reads this, tmpOutBuffer, header
    {
      && stage == GetBlockChecksum && Body(out) && tmpInSize < BF_SIZE
      && (t.good ==>
            && InBlock(t, true) && info.blockChecksum
            && var data := t.fr.blocks[block].data;
            && c == BlockStart(t) + BH_SIZE + |data| + tmpInSize
            && Gathered(t.Emitted(hash), BlockStart(t) + BH_SIZE + |data|, header, tmpInSize)
            && p == Before(t.fr, block) + |data| && Reached(t, p, out) && (!skipChecksum ==> blockXxh == data))
    }

    /** A compressed block of `tmpInTarget` bytes, with its checksum, is next. */
    ghost predicate Compressed(t: Track, p: nat, out: Bytes)
      reads `info, `userDict, `dict, `dictSize, `tmpOutBuffer, `tmpIn, `maxBufferSize, `maxBlockSize, `tmpOut,
            `tmpInTarget, `block, `xxh, `skipChecksum, `frameRemainingSize, tmpOutBuffer
    {
      && Body(out) && CrcSize() <= tmpInTarget <= maxBlockSize + CrcSize()
      && (t.good ==>
            InBlock(t, false) && tmpInTarget == |t.fr.blocks[block].data| + CrcSize() && p == Before(t.fr, block)
            && Reached(t, p, out))
    }

    ghost predicate AtGetCBlock(t: Track, c: nat, p: nat, out: Bytes)
      reads this, tmpOutBuffer
    {
      stage == GetCBlock && Compressed(t, p, out) && (t.good ==> c == BlockStart(t) + BH_SIZE)
    }

    ghost predicate AtStoreCBlock(t: Track, c: nat, p: nat, out: Bytes)
      reads this, tmpOutBuffer, tmpIn
    {
      && stage == StoreCBlock && Compressed(t, p, out) && tmpInSize < tmpInTarget
      && (t.good ==>
            c == BlockStart(t) + BH_SIZE + tmpInSize && Gathered(t.Emitted(hash), BlockStart(t) + BH_SIZE, tmpIn,
                                                                 tmpInSize))
    }

    /** The block `content` stands in the internal buffer and `k` bytes of it have been flushed. With linked blocks,
        either the dictionary goes on there behind the block, whose history stands before it as far as it still
        matters, or the dictionary is elsewhere and there is room for it. */
    ghost predicate FlushHistory(dictionary: Bytes, before: Bytes, content: Bytes, k: nat, out: Bytes)
      reads `info, `userDict, `dict, `dictSize, `tmpOutBuffer, `tmpOut, tmpOutBuffer
    {
      && DictShape(|out|) && k <= |content|
      && tmpOut + |content| <= tmpOutBuffer.Length && tmpOutBuffer[tmpOut..tmpOut + |content|] == content
      && if info.linked then
           && RoomFor(tmpOut, dictionary + before, |content|)
           && if dict == Tmp then Kept(tmpOutBuffer[..], tmpOut, dictionary + before, content)
              else Recent(DictBytes(out), dictionary + before + content[..k])
         else DictBytes(out) == dictionary
    }

    /** A block decoded to the internal buffer, of which `tmpOutStart` bytes have been flushed. */
    ghost predicate Flushing(t: Track, p: nat, out: Bytes)
      reads this, tmpOutBuffer
    {
      && InBlock(t, false)
      && var content, b := t.fr.blocks[block].content, Before(t.fr, block);
      && b + |content| <= |t.Content()| && |content| == tmpOutSize && p == b + tmpOutStart
      && Summed(t.Content(), b + |content|)
      && FlushHistory(t.dictionary, t.Content()[..b], content, tmpOutStart, out)
    }

    ghost predicate AtFlushOut(t: Track, c: nat, p: nat, out: Bytes)
      reads this, tmpOutBuffer
    {
      && stage == FlushOut && Body(out) && FlushShape()
      && (t.good ==> Flushing(t, p, out) && c == Start(t.fr, block + 1, hash))
    }

    /** All blocks are done. */
    ghost predicate Ended(t: Track, p: nat)
      reads `info, `maxBlockSize, `block, `xxh, `skipChecksum, `frameRemainingSize
    {
      InBody(t) && block == |t.fr.blocks| && p == |t.Content()| && Summed(t.Content(), p)
    }

    ghost predicate AtGetSuffix(t: Track, c: nat, p: nat)
      reads this
    {
      stage == GetSuffix && Ready() && (t.good ==> Ended(t, p) && c == BlockStart(t) + BH_SIZE)
    }

    ghost predicate AtStoreSuffix(t: Track, c: nat, p: nat)
      reads this, tmpIn
    {
      && stage == StoreSuffix && Ready() && tmpInSize < BF_SIZE
      && (t.good ==>
            && Ended(t,
                     p) && info.contentChecksum && frameRemainingSize == 0 && c == BlockStart(t) + BH_SIZE + tmpInSize
            && Gathered(t.Emitted(hash), BlockStart(t) + BH_SIZE, tmpIn, tmpInSize))
    }

    /** In a skippable frame. */
    ghost predicate Skipping(t: Track, p: nat)
      reads `frameRemainingSize
    {
      t.good ==> t.fr.SkippableFrame? && p == 0 && frameRemainingSize == 0
    }

    ghost predicate AtGetSFrameSize(t: Track, c: nat, p: nat)
      reads this
    {
      stage == GetSFrameSize && Skipping(t, p) && (t.good ==> c == 4)
    }

    ghost predicate AtStoreSFrameSize(t: Track, c: nat, p: nat)
      requires t.Valid()
      reads this, header
    {
      && stage == StoreSFrameSize && Skipping(t, p) && 4 <= tmpInSize < tmpInTarget == 8
      && header.Length >= 8
      && (t.good ==> c == tmpInSize <= |t.Emitted(hash)| && header[4..c] == t.Emitted(hash)[4..c])
    }

    ghost predicate AtSkipSkippable(t: Track, c: nat, p: nat)
      requires t.Valid()
      reads this
    {
      stage == SkipSkippable && Skipping(t, p) && (t.good ==> c + tmpInTarget == |t.Emitted(hash)|)
    }

    ghost predicate AtStage(t: Track, c: nat, p: nat, out: Bytes)
      requires t.Valid()
      reads this, header, tmpIn, tmpOutBuffer
    {
      || AtGetFrameHeader(t, c, p) || AtStoreFrameHeader(t, c, p) || AtInit(t, c, p)
      || AtGetBlockHeader(t, c, p, out) || AtStoreBlockHeader(t, c, p, out)
      || AtCopyDirect(t, c, p, out) || AtGetBlockChecksum(t, c, p, out)
      || AtGetCBlock(t, c, p, out) || AtStoreCBlock(t, c, p, out) || AtFlushOut(t, c, p, out)
      || AtGetSuffix(t, c, p) || AtStoreSuffix(t, c, p)
      || AtGetSFrameSize(t, c, p) || AtStoreSFrameSize(t, c, p) || AtSkipSkippable(t, c, p)
    }

    lemma AtStageCase(t: Track, c: nat, p: nat, out: Bytes)
      requires t.Valid() && AtStage(t, c, p, out)
      ensures match stage
        case GetFrameHeader => AtGetFrameHeader(t, c, p)
        case StoreFrameHeader => AtStoreFrameHeader(t, c, p)
        case Init => AtInit(t, c, p)
        case GetBlockHeader => AtGetBlockHeader(t, c, p, out)
        case StoreBlockHeader => AtStoreBlockHeader(t, c, p, out)
        case CopyDirect => AtCopyDirect(t, c, p, out)
        case GetBlockChecksum => AtGetBlockChecksum(t, c, p, out)
        case GetCBlock => AtGetCBlock(t, c, p, out)
        case StoreCBlock => AtStoreCBlock(t, c, p, out)
        case FlushOut => AtFlushOut(t, c, p, out)
        case GetSuffix => AtGetSuffix(t, c, p)
        case StoreSuffix => AtStoreSuffix(t, c, p)
        case GetSFrameSize => AtGetSFrameSize(t, c, p)
        case StoreSFrameSize => AtStoreSFrameSize(t, c, p)
        case SkipSkippable => AtSkipSkippable(t, c, p)
    {
      hide NoOutputYet, Waiting, InfoIs, IsBlockSize, Gathered, Body, Boundary, BlockStart, InBlock, Reached,
           Compressed, FlushShape, Flushing, Ended, Skipping, Ready, ValidFrame, Track.Emitted, IsSkippable;
    }

    /** Ready for the next frame. */
    ghost predicate Complete()
      reads `stage, `dict, `dictSize, `frameRemainingSize, `skipChecksum
    {
      stage == GetFrameHeader && dict == Nowhere && dictSize == 0 && frameRemainingSize == 0 && !skipChecksum
    }

    /** The input of a call continues the frame, and `srcPtr` bytes of it have been consumed. */
    ghost predicate Fed(a: Call, srcPtr: nat) {
      && srcPtr <= |a.src| && a.t.Valid()
      && (a.t.good ==> Feeds(a.t.Emitted(hash), a.c0, a.src) && a.c0 + srcPtr <= |a.t.Emitted(hash)|)
    }

    /** The call has written `dstPtr` bytes, the next ones of the content. */
    ghost predicate Wrote(a: Call, dst: array<byte>, dstPtr: nat)
      reads dst
    {
      dstPtr <= dst.Length && (a.t.good ==> a.Wrote(dst[..dstPtr]))
    }

    /** The state at the head of the stage loop. */
    ghost predicate Here(a: Call, dst: array<byte>, dstPtr: nat, srcPtr: nat)
      reads this, header, tmpIn, tmpOutBuffer, dst
    {
      && Apart(dst) && Buffers() && Fed(a, srcPtr) && Wrote(a, dst, dstPtr)
      && AtStage(a.t, a.c0 + srcPtr, a.p0 + dstPtr, dst[..dstPtr])
    }

    /** The end of the frame: ready for the next one. */
    ghost predicate Finished(t: Track, c: nat, p: nat)
      requires t.Valid()
      reads `stage, `dict, `dictSize, `frameRemainingSize, `skipChecksum
    {
      && stage == GetFrameHeader && dict == Nowhere && dictSize == 0 && !skipChecksum
      && (t.good ==> frameRemainingSize == 0 && c == |t.Emitted(hash)| && p == |t.Content()|)
    }

    // -------------------------------------------------------------- the frame header

    /** `s` and `F` agree as far as both go. */
    static ghost predicate Begins(s: Bytes, F: Bytes) {
      forall i {:trigger s[i]} :: 0 <= i < |s| && i < |F| ==> s[i] == F[i]
    }

    static lemma BeginsAt(s: Bytes, F: Bytes, p: nat, x: Bytes)
      requires Begins(s, F) && At(F, p, x) && p + |x| <= |s|
      ensures At(s, p, x)
    {
    }

    /** The fields of a header, where the decoder looks for them. */
    static lemma HeaderParts(h: Header, rest: Bytes, hash: Bytes -> U32)
      requires IsBlockSizeId(h.blockSizeId)
      ensures var F, n := EmitHeader(h, hash) + rest, HeaderSize(h);
        && At(F, 0, LE32(MAGIC)) && F[4] == Flg(h) && F[5] == 16 * h.blockSizeId
        && (h.contentSize.Some? ==> At(F, 6, LE64(h.contentSize.value)))
        && (h.dictID.Some? ==> At(F, n - 5, LE32(h.dictID.value)))
        && At(F, 4, Descriptor(h)) && F[n - 1] == HeaderChecksum(Descriptor(h), hash)
    {
      hide LE32, LE64, HeaderChecksum, Flg;
      var F, d := EmitHeader(h, hash) + rest, Descriptor(h);
      assert F == LE32(MAGIC) + (d + ([HeaderChecksum(d, hash)] + rest));
      var fields: Bytes := [Flg(h), 16 * h.blockSizeId];
      var size := if h.contentSize.Some? then LE64(h.contentSize.value) else [];
      var id := if h.dictID.Some? then LE32(h.dictID.value) else [];
      assert d == fields + (size + id);
      assert F[4..4 + |d|] == d;
      AtConcat(F, 4, fields, size + id);
      AtConcat(F, 6, size, id);
      assert F[4] == d[0] && F[5] == d[1];
    }

    static lemma FlgFields(h: Header)
      ensures var f := Flg(h);
        && f / 2 % 2 == 0 && f / 64 == 1
        && f / 32 % 2 == (if h.linked then 0 else 1) && f / 16 % 2 == (if h.blockChecksum then 1 else 0)
        && f / 8 % 2 == (if h.contentSize.Some? then 1 else 0) && f / 4 % 2 == (if h.contentChecksum then 1 else 0)
        && f % 2 == (if h.dictID.Some? then 1 else 0)
    {
    }

    /** What the flags of a header byte say. */
    static function InfoOf(flg: byte): Info {
      Info(false, flg / 32 % 2 == 0, flg / 16 % 2 == 1, flg / 4 % 2 == 1, 0, 0)
    }

    static function SizeOf(flg: byte): nat {
      MIN_FH_SIZE + (if flg / 8 % 2 == 1 then 8 else 0) + (if flg % 2 == 1 then 4 else 0)
    }

    /** The beginning of a frame, as far as it is read before its header is known to be complete. */
    static lemma FrameStart(fr: Frame, hash: Bytes -> U32, s: Bytes)
      requires Emittable(fr) && Begins(s, EmitFrame(fr, hash)) && |s| >= MIN_FH_SIZE
      ensures fr.SkippableFrame? <==> IsSkippable(s)
      ensures fr.Lz4Frame? ==>
        && ReadLE32(s, 0) == MAGIC && s[4] == Flg(fr.header) && s[5] == 16 * fr.header.blockSizeId
        && SizeOf(s[4]) == HeaderSize(fr.header)
    {
      hide LE32, ReadLE32, Content, EmitBlocks, Flg, EmitHeader, Begins;
      if fr.Lz4Frame? {
        HeaderInFrame(fr, hash, s);
        ReadBack32(s, 0, MAGIC);
        FlgFields(fr.header);
      } else {
        SkippableAt(fr, hash);
        BeginsAt(s, EmitFrame(fr, hash), 0, LE32(MAGIC_SKIPPABLE + fr.nibble));
        ReadBack32(s, 0, MAGIC_SKIPPABLE + fr.nibble);
      }
    }

    /** The header fields as the decoder meets them. */
    static lemma HeaderInFrame(fr: Frame, hash: Bytes -> U32, s: Bytes)
      requires Emittable(fr) && fr.Lz4Frame? && Begins(s, EmitFrame(fr, hash)) && |s| >= MIN_FH_SIZE
      ensures var h, n := fr.header, HeaderSize(fr.header);
        && At(s, 0, LE32(MAGIC)) && s[4] == Flg(h) && s[5] == 16 * h.blockSizeId
        && (|s| >= n ==>
              && (h.contentSize.Some? ==> At(s, 6, LE64(h.contentSize.value)))
              && (h.dictID.Some? ==> At(s, n - 5, LE32(h.dictID.value)))
              && At(s, 4, Descriptor(h)) && s[n - 1] == HeaderChecksum(Descriptor(h), hash))
    {
      hide LE32, LE64, Descriptor, Content, EmitBlocks, Flg, EmitHeader, Begins, HeaderChecksum, At;
      var h, F := fr.header, EmitFrame(fr, hash);
      var tail := EmitBlocks(fr.blocks, h.blockChecksum,
                             hash) + (LE32(0) + Crc(h.contentChecksum, Content(fr.blocks), hash));
      assert F == EmitHeader(h, hash) + tail;
      HeaderParts(h, tail, hash);
      BeginsAt(s, F, 0, LE32(MAGIC));
      BeginsIndex(s, F, 4);
      BeginsIndex(s, F, 5);
      if |s| >= HeaderSize(h) {
        if h.contentSize.Some? { BeginsAt(s, F, 6, LE64(h.contentSize.value)); }
        if h.dictID.Some? { BeginsAt(s, F, HeaderSize(h) - 5, LE32(h.dictID.value)); }
        BeginsAt(s, F, 4, Descriptor(h));
        BeginsIndex(s, F, HeaderSize(h) - 1);
      }
    }

    static lemma BeginsIndex(s: Bytes, F: Bytes, i: nat)
      requires Begins(s, F) && i < |s| && i < |F|
      ensures s[i] == F[i]
    {
    }

    /** `LZ4F_decodeHeader`, on bytes of the input or (`inHeader`) on those gathered in `header`. */
    method DecodeHeader(s: Bytes, inHeader: bool, ghost t: Track) returns (error: Option<FrameError>, n: nat)
      requires header.Length == MAX_FH_SIZE
      requires inHeader ==> |s| <= MAX_FH_SIZE && s == header[..|s|] && (|s| == MIN_FH_SIZE || !IsSkippable(s))
      requires t.good ==> t.Valid() && Begins(s, EmitFrame(t.fr, hash)) && |s| >= MIN_FH_SIZE
      modifies `info, `stage, `tmpInSize, `tmpInTarget, `maxBlockSize, `frameRemainingSize, header
      ensures error == None ==>
        && n <= |s|
        && match stage
           case Init =>
             && n > 0 && IsBlockSize(maxBlockSize)
             && (t.good ==>
                 && t.fr.Lz4Frame? && InfoIs(t.fr.header) && n == HeaderSize(t.fr.header)
                 && (frameRemainingSize == old(frameRemainingSize) || t.fr.header.contentSize.Some?)
                 && (t.fr.header.contentSize.Some? ==> frameRemainingSize == t.fr.header.contentSize.value))
           case StoreFrameHeader =>
             && n == |s| == tmpInSize
             && MIN_FH_SIZE <= n < tmpInTarget <= MAX_FH_SIZE
             && header[..n] == s
             && !IsSkippable(s)
             && frameRemainingSize == old(frameRemainingSize)
             && (t.good ==> t.fr.Lz4Frame? && tmpInTarget == HeaderSize(t.fr.header))
           case GetSFrameSize =>
             n == 4 && !inHeader && (t.good ==> t.fr.SkippableFrame?) && frameRemainingSize == old(frameRemainingSize)
           case StoreSFrameSize =>
             && n == |s| == tmpInSize == MIN_FH_SIZE && tmpInTarget == 8 && inHeader && header[..n] == s
             && (t.good ==> t.fr.SkippableFrame?) && frameRemainingSize == old(frameRemainingSize)
           case _ => false
      ensures error != None ==> !t.good
    {
      n := 0;
      if |s| < MIN_FH_SIZE { return Some(HeaderIncomplete), n; }
      info := Info(false, true, false, false, 0, 0);
      if t.good { FrameStart(t.fr, hash, s); }
      hide LE32, ReadLE32, Begins, InfoIs, IsSkippable;
      if IsSkippable(s) {
        info := info.(skippable := true);
        if inHeader {
          tmpInSize, tmpInTarget, stage := |s|, 8, StoreSFrameSize;
          return None, |s|;
        } else {
          stage := GetSFrameSize;
          return None, 4;
        }
      }
      if ReadLE32(s, 0) != MAGIC { return Some(FrameTypeUnknown), n; }
      var flg := s[4];
      if t.good { FlgFields(t.fr.header); }
      if flg / 2 % 2 != 0 { return Some(ReservedFlagSet), n; }
      if flg / 64 != 1 { return Some(HeaderVersionWrong), n; }
      var frameHeaderSize := SizeOf(flg);
      if |s| < frameHeaderSize {
        if !inHeader { BlockDecoder.CopyExactly(header, 0, s, 0, |s|); }
        tmpInSize, tmpInTarget, stage := |s|, frameHeaderSize, StoreFrameHeader;
        return None, |s|;
      }
      error := CheckHeader(s, frameHeaderSize, t);
      n := frameHeaderSize;
    }

    /** The checks made on a complete header hold of a frame, and its fields are found. */
    static lemma HeaderGood(fr: Frame, hash: Bytes -> U32, s: Bytes)
      requires Emittable(fr) && fr.Lz4Frame? && Begins(s, EmitFrame(fr, hash)) && |s| >= HeaderSize(fr.header)
      ensures var h, n := fr.header, HeaderSize(fr.header);
        && SizeOf(s[4]) == n && s[5] / 128 == 0 && s[5] / 16 % 8 == h.blockSizeId && s[5] % 16 == 0
        && HeaderChecksum(s[4..n - 1], hash) == s[n - 1]
        && InfoOf(s[4]) == Info(false, h.linked, h.blockChecksum, h.contentChecksum, 0, 0)
        && s[4] / 8 % 2 == (if h.contentSize.Some? then 1 else 0)
        && (h.contentSize.Some? ==> ReadLE64(s, 6) == h.contentSize.value)
    {
      hide LE32, LE64, ReadLE32, ReadLE64, Begins, HeaderChecksum, Descriptor, Flg, EmitFrame;
      HeaderInFrame(fr, hash, s);
      FlgFields(fr.header);
      assert s[4..4 + |Descriptor(fr.header)|] == Descriptor(fr.header);
      if fr.header.contentSize.Some? { ReadBack64(s, 6, fr.header.contentSize.value); }
    }

    /** The rest of the header, once it is complete. */
    method CheckHeader(s: Bytes, frameHeaderSize: nat, ghost t: Track) returns (error: Option<FrameError>)
      requires |s| >= frameHeaderSize >= MIN_FH_SIZE && frameHeaderSize == SizeOf(s[4])
      requires t.good ==>
        t.Valid() && t.fr.Lz4Frame? && Begins(s, EmitFrame(t.fr, hash)) && frameHeaderSize == HeaderSize(t.fr.header)
      modifies `info, `stage, `maxBlockSize, `frameRemainingSize
      ensures error == None ==>
        && stage == Init && IsBlockSize(maxBlockSize)
        && (t.good ==>
             && InfoIs(t.fr.header)
             && (frameRemainingSize == old(frameRemainingSize) || t.fr.header.contentSize.Some?)
             && (t.fr.header.contentSize.Some? ==> frameRemainingSize == t.fr.header.contentSize.value))
      ensures error != None ==> !t.good
    {
      hide LE32, LE64, ReadLE32, ReadLE64, Begins, HeaderChecksum, Descriptor, Flg, EmitFrame;
      if t.good { HeaderGood(t.fr, hash, s); }
      var bd := s[5];
      var blockSizeId := bd / 16 % 8;
      if bd / 128 != 0 { return Some(ReservedFlagSet); }
      if blockSizeId < 4 { return Some(MaxBlockSizeInvalid); }
      if bd % 16 != 0 { return Some(ReservedFlagSet); }
      if HeaderChecksum(s[4..frameHeaderSize - 1],
                        hash) != s[frameHeaderSize - 1] { return Some(HeaderChecksumInvalid); }
      info := InfoOf(s[4]);
      maxBlockSize := BlockSize(blockSizeId);
      if s[4] / 8 % 2 == 1 {
        frameRemainingSize := ReadLE64(s, 6);
        info := info.(contentSize := frameRemainingSize);
      }
      if s[4] % 2 == 1 { info := info.(dictID := ReadLE32(s, frameHeaderSize - 5)); }
      stage := Init;
      error := None;
    }
  
    static lemma FrameLength(fr: Frame, hash: Bytes -> U32)
      requires Emittable(fr)
      ensures |EmitFrame(fr, hash)| >= if fr.Lz4Frame? then HeaderSize(fr.header) else 8
    {
    }

    static lemma RestBegins(F: Bytes, a: Call, srcPtr: nat)
      requires Feeds(F, a.c0, a.src) && a.c0 + srcPtr == 0 && srcPtr <= |a.src|
      ensures Begins(a.src[srcPtr..], F)
    {
    }

    /** Gathers input in a buffer until it holds `target` bytes. */
    static method Gather(buf: array<byte>, size: nat, target: nat, src: Bytes, srcPtr0: nat, ghost good: bool,
                         ghost F: Bytes, ghost c0: nat, ghost base: nat)
      returns (newSize: nat, srcPtr: nat)
      requires size <= target <= buf.Length && srcPtr0 <= |src|
      requires good ==>
        Feeds(F, c0, src) && Gathered(F, base, buf, size) && base + size == c0 + srcPtr0 && base + target <= |F|
      modifies buf
      ensures newSize == Min(target, size + (|src| - srcPtr0)) && srcPtr - srcPtr0 == newSize - size
      ensures forall i :: 0 <= i < size ==> buf[i] == old(buf[i])
      ensures good ==> Gathered(F, base, buf, newSize)
    {
      var sizeToCopy := Min(target - size, |src| - srcPtr0);
      BlockDecoder.CopyExactly(buf, size, src, srcPtr0, sizeToCopy);
      newSize, srcPtr := size + sizeToCopy, srcPtr0 + sizeToCopy;
      if good {
        FeedMore(F, c0, src, srcPtr0, srcPtr, base, old(buf[..size]), buf[..newSize]);
      }
    }


    /** `LZ4F_resetDecompressionContext`. */
    method Reset()
      modifies `stage, `dict, `dictSize, `skipChecksum
      ensures stage == GetFrameHeader && dict == Nowhere && dictSize == 0 && !skipChecksum
    {
      stage, dict, dictSize, skipChecksum := GetFrameHeader, Nowhere, 0, false;
    }

    /** `dstage_getFrameHeader`. */
    method TurnGetFrameHeader(src: Bytes, srcPtr0: nat, ghost a: Call, ghost p: nat, ghost out: Bytes)
      returns (turn: Turn, srcPtr: nat)
      requires Buffers() && a.src == src && Fed(a, srcPtr0) && AtGetFrameHeader(a.t, a.c0 + srcPtr0, p)
      modifies `info, `stage, `tmpInSize, `tmpInTarget, `maxBlockSize, `frameRemainingSize, header
      ensures turn.Fail? ==> !a.t.good
      ensures srcPtr0 <= srcPtr && (!turn.Fail? ==> Fed(a, srcPtr))
      ensures turn == Another ==>
        || AtStoreFrameHeader(a.t, a.c0 + srcPtr, p)
        || (srcPtr > srcPtr0 && (AtInit(a.t, a.c0 + srcPtr, p) || AtGetSFrameSize(a.t, a.c0 + srcPtr, p)))
      ensures turn.Pause? ==> turn.hint != 0 && srcPtr == |src| && AtGetFrameHeader(a.t, a.c0 + srcPtr, p)
    {
      hide Feeds, EmitFrame, IsSkippable;
      srcPtr := srcPtr0;
      if a.t.good { FrameLength(a.t.fr, hash); }
      if |src| - srcPtr >= MAX_FH_SIZE {
        if a.t.good { RestBegins(EmitFrame(a.t.fr, hash), a, srcPtr); }
        var error, n := DecodeHeader(src[srcPtr..], false, a.t);
        if error != None { return Fail(error.value), srcPtr; }
        srcPtr := srcPtr + n;
        return Another, srcPtr;
      }
      tmpInSize := 0;
      if |src| - srcPtr == 0 { return Pause(MIN_FH_SIZE), srcPtr; }
      tmpInTarget := MIN_FH_SIZE;
      stage := StoreFrameHeader;
      turn := Another;
    }

    /** `dstage_storeFrameHeader`. */
    method TurnStoreFrameHeader(src: Bytes, srcPtr0: nat, ghost a: Call, ghost p: nat, ghost out: Bytes)
      returns (turn: Turn, srcPtr: nat)
      requires Buffers() && a.src == src && Fed(a, srcPtr0) && AtStoreFrameHeader(a.t, a.c0 + srcPtr0, p)
      modifies `info, `stage, `tmpInSize, `tmpInTarget, `maxBlockSize, `frameRemainingSize, header
      ensures turn.Fail? ==> !a.t.good
      ensures srcPtr0 <= srcPtr && (!turn.Fail? ==> Fed(a, srcPtr))
      ensures turn == Another ==>
        && srcPtr > srcPtr0
        && (AtStoreFrameHeader(a.t, a.c0 + srcPtr, p) || AtInit(a.t, a.c0 + srcPtr, p)
           || AtStoreSFrameSize(a.t, a.c0 + srcPtr, p))
      ensures turn.Pause? ==> turn.hint != 0 && srcPtr == |src| && AtStoreFrameHeader(a.t, a.c0 + srcPtr, p)
    {
      hide Feeds, EmitFrame, IsSkippable, Track.Valid, HeaderSize, Track.Emitted;
      srcPtr := GatherFrameHeader(src, srcPtr0, a, p);
      if tmpInSize < tmpInTarget {
        return Pause(tmpInTarget - tmpInSize + BH_SIZE), srcPtr;
      }
      turn := DecodeGathered(a, a.c0 + srcPtr, p);
    }

    /** The header as far as it is wanted has been gathered. */
    ghost predicate HeaderGathered(t: Track, c: nat, p: nat)
      requires t.Valid()
      reads this, header
    {
      && stage == StoreFrameHeader
      && NoOutputYet()
      && tmpInSize == tmpInTarget
      && MIN_FH_SIZE <= tmpInTarget <= MAX_FH_SIZE
      && (tmpInTarget == MIN_FH_SIZE || !IsSkippable(header[..]))
      && (t.good ==>
            && p == 0 && c == tmpInSize && Gathered(t.Emitted(hash), 0, header, c) && Waiting(t)
            && (tmpInTarget == MIN_FH_SIZE || (t.fr.Lz4Frame? && tmpInTarget == HeaderSize(t.fr.header))))
    }

    method GatherFrameHeader(src: Bytes, srcPtr0: nat, ghost a: Call, ghost p: nat) returns (srcPtr: nat)
      requires Buffers() && a.src == src && Fed(a, srcPtr0) && AtStoreFrameHeader(a.t, a.c0 + srcPtr0, p)
      modifies `tmpInSize, header
      ensures srcPtr0 <= srcPtr && Fed(a, srcPtr)
      ensures if tmpInSize < tmpInTarget then srcPtr == |src| && AtStoreFrameHeader(a.t, a.c0 + srcPtr, p)
        else srcPtr > srcPtr0 && HeaderGathered(a.t, a.c0 + srcPtr, p)
    {
      hide Feeds, EmitFrame, IsSkippable, Waiting, NoOutputYet;
      ghost var F := if a.t.good then EmitFrame(a.t.fr, hash) else [];
      if a.t.good { FrameLength(a.t.fr, hash); }
      ghost var before := header[..];
      tmpInSize, srcPtr := Gather(header, tmpInSize, tmpInTarget, src, srcPtr0, a.t.good, F, a.c0, 0);
      if old(tmpInSize) >= MIN_FH_SIZE { SkippableKept(before, header[..]); }
    }

    method DecodeGathered(ghost a: Call, ghost c: nat, ghost p: nat) returns (turn: Turn)
      requires Buffers() && a.t.Valid() && HeaderGathered(a.t, c, p)
      modifies `info, `stage, `tmpInSize, `tmpInTarget, `maxBlockSize, `frameRemainingSize, header
      ensures match turn
        case Fail(_) => !a.t.good
        case Another => AtStoreFrameHeader(a.t, c, p) || AtInit(a.t, c, p) || AtStoreSFrameSize(a.t, c, p)
        case Pause(_) => false
    {
      hide EmitFrame, IsSkippable;
      ghost var F := if a.t.good then EmitFrame(a.t.fr, hash) else [];
      if a.t.good { FrameLength(a.t.fr, hash); }
      SkippableKept(header[..], header[..tmpInTarget]);
      if a.t.good { GatheredBegins(header[..tmpInTarget], F); }
      var error, n := DecodeHeader(header[..tmpInTarget], true, a.t);
      if error != None { return Fail(error.value); }
      if stage == StoreFrameHeader { SkippableKept(header[..tmpInSize], header[..]); }
      turn := Another;
    }

    static lemma SkippableKept(s: Bytes, s': Bytes)
      requires |s| >= 4 && |s'| >= 4 && s[0] == s'[0] && s[1] == s'[1] && s[2] == s'[2] && s[3] == s'[3]
      ensures IsSkippable(s) == IsSkippable(s')
    {
    }

    static lemma GatheredBegins(s: Bytes, F: Bytes)
      requires |s| <= |F| && s == F[0..|s|]
      ensures Begins(s, F)
    {
    }

    /** The internal buffers grow when the frame needs larger ones. Those that are kept suit it in any case. */
    method Allocate()
      requires Buffers() && IsBlockSize(maxBlockSize)
      modifies `maxBufferSize, `tmpIn, `tmpOutBuffer
      ensures Buffers() && BufferNeeded() <= maxBufferSize
      ensures (tmpIn == old(tmpIn) || fresh(tmpIn)) && (tmpOutBuffer == old(tmpOutBuffer) || fresh(tmpOutBuffer))
    {
      var bufferNeeded := BufferNeeded();
      if bufferNeeded > maxBufferSize {
        maxBufferSize := 0;
        tmpIn := new byte[maxBlockSize + BF_SIZE];
        tmpOutBuffer := new byte[bufferNeeded];
        maxBufferSize := bufferNeeded;
      }
    }

    /** `dstage_init`. */
    method TurnInit(ghost t: Track, ghost c: nat, ghost p: nat, ghost out: Bytes)
      requires Buffers() && t.Valid() && AtInit(t, c, p)
      modifies `xxh, `maxBufferSize, `tmpIn, `tmpOutBuffer, `tmpInSize, `tmpInTarget, `tmpOut, `tmpOutStart,
               `tmpOutSize, `stage, `block
      ensures AtGetBlockHeader(t, c, p, out) && Buffers()
      ensures (tmpIn == old(tmpIn) || fresh(tmpIn)) && (tmpOutBuffer == old(tmpOutBuffer) || fresh(tmpOutBuffer))
    {
      hide Buffers, NoOutputYet, AtGetBlockHeader, InfoIs, Track.Valid, Track.Content, HeaderSize;
      Allocate();
      EnterBody(t, c, p, out);
    }

    method EnterBody(ghost t: Track, ghost c: nat, ghost p: nat, ghost out: Bytes)
      requires Buffers() && BufferNeeded() <= maxBufferSize && t.Valid() && AtInit(t, c, p)
      modifies `xxh, `tmpInSize, `tmpInTarget, `tmpOut, `tmpOutStart, `tmpOutSize, `stage, `block
      ensures AtGetBlockHeader(t, c, p, out)
    {
      hide Buffers, IsBlockSize, Track.Valid, InfoIs, HeaderSize, AtGetBlockHeader, Track.Content, NoOutputYet;
      if info.contentChecksum { xxh := []; }
      tmpInSize, tmpInTarget := 0, 0;
      tmpOut, tmpOutStart, tmpOutSize := 0, 0, 0;
      block := 0;
      stage := GetBlockHeader;
      BodyEntered(t, c, p, out);
    }

    lemma BodyEntered(t: Track, c: nat, p: nat, out: Bytes)
      requires stage == GetBlockHeader && Ready() && NoOutputYet() && block == 0 && t.Valid()
      requires t.good ==>
        && t.fr.Lz4Frame? && InfoIs(t.fr.header) && c == HeaderSize(t.fr.header) && p == 0
        && t.dictionary == (if dict == User then userDict else [])
        && frameRemainingSize == (if info.contentSize != 0 then |t.Content()| else 0)
        && (info.contentChecksum ==> xxh == [])
      ensures AtGetBlockHeader(t, c, p, out)
    {
      hide Ready, Boundary, BlockStart;
      if t.good { BodyBegins(t, out); }
    }

    lemma BodyBegins(t: Track, out: Bytes)
      requires t.good && t.Valid() && t.fr.Lz4Frame? && InfoIs(t.fr.header) && block == 0 && NoOutputYet()
      requires t.dictionary == (if dict == User then userDict else [])
      requires frameRemainingSize == (if info.contentSize != 0 then |t.Content()| else 0)
      requires (info.contentChecksum ==> xxh == [])
      ensures Boundary(t, 0, out) && BlockStart(t) == HeaderSize(t.fr.header)
    {
      hide Recent, EmitFrame, Start, Before, HeaderSize, BlockSize, FrameContent, Track.Content;
      StartOfBody(t, hash);
      hide ValidFrame, Emittable;
    }

    static lemma StartOfBody(t: Track, hash: Bytes -> U32)
      requires t.good && t.fr.Lz4Frame? && Emittable(t.fr)
      ensures Before(t.fr, 0) == 0 && Start(t.fr, 0, hash) == HeaderSize(t.fr.header)
      ensures t.Content()[..0] == [] && Recent(t.dictionary, t.dictionary + t.Content()[..0])
    {
      RecentSame(t.dictionary);
      assert t.dictionary + t.Content()[..0] == t.dictionary;
    }
  
    // -------------------------------------------------------------- block headers

    /** What stands where the next block header is expected. */
    ghost function NextWord(t: Track): U32
      requires InBody(t)
      reads `info, `maxBlockSize, `block
    {
      if block < |t.fr.blocks| then BlockWord(t.fr.blocks[block]) else 0
    }

    lemma NextWordAt(t: Track)
      requires InBody(t)
      ensures At(t.Emitted(hash), BlockStart(t), LE32(NextWord(t))) && BlockStart(t) + BH_SIZE <= |t.Emitted(hash)|
    {
      hide LE32, EmitFrame, Content;
      if block < |t.fr.blocks| { BlockAt(t.fr, block, hash); } else { EndAt(t.fr, hash); }
    }

    /** `dstage_getBlockHeader`. */
    method TurnGetBlockHeader(src: Bytes, srcPtr0: nat, full: bool, ghost a: Call, ghost p: nat, ghost out: Bytes)
      returns (turn: Turn, srcPtr: nat)
      requires a.src == src && Fed(a, srcPtr0) && AtGetBlockHeader(a.t, a.c0 + srcPtr0, p, out)
      modifies `stage, `tmpInSize, `tmpInTarget, `blockXxh
      ensures turn.Fail? ==> !a.t.good
      ensures srcPtr0 <= srcPtr && (!turn.Fail? ==> Fed(a, srcPtr))
      ensures turn == Another ==>
        || AtStoreBlockHeader(a.t, a.c0 + srcPtr, p, out)
        || (srcPtr > srcPtr0
           && (AtGetSuffix(a.t, a.c0 + srcPtr, p) || AtCopyDirect(a.t, a.c0 + srcPtr, p, out)
              || AtGetCBlock(a.t, a.c0 + srcPtr, p, out)))
      ensures turn.Pause? ==> turn.hint != 0 && (srcPtr == |src| || full) && AtGetCBlock(a.t, a.c0 + srcPtr, p, out)
    {
      hide Feeds, Body, Reached, InBody, Start, Before, LE32, Track.Emitted, Track.Valid, InfoIs;
      srcPtr := srcPtr0;
      if a.t.good { NextWordAt(a.t); }
      if |src| - srcPtr >= BH_SIZE {
        if a.t.good {
          FeedAt(a.t.Emitted(hash), a.c0, src, srcPtr, LE32(NextWord(a.t)));
          ReadBack32(src, srcPtr, NextWord(a.t));
        }
        srcPtr := srcPtr + BH_SIZE;
        turn := DecodeBlockHeader(ReadLE32(src, srcPtr - BH_SIZE), full || srcPtr == |src|, a.t, a.c0 + srcPtr, p, out);
      } else {
        tmpInSize := 0;
        stage := StoreBlockHeader;
        turn := Another;
      }
    }

    /** `dstage_storeBlockHeader`. */
    method TurnStoreBlockHeader(src: Bytes, srcPtr0: nat, full: bool, ghost a: Call, ghost p: nat, ghost out: Bytes)
      returns (turn: Turn, srcPtr: nat)
      requires a.src == src && Fed(a, srcPtr0) && AtStoreBlockHeader(a.t, a.c0 + srcPtr0, p, out)
      requires tmpIn != tmpOutBuffer
      modifies `stage, `tmpInSize, `tmpInTarget, `blockXxh, tmpIn
      ensures turn.Fail? ==> !a.t.good
      ensures srcPtr0 <= srcPtr && (!turn.Fail? ==> Fed(a, srcPtr))
      ensures turn == Another ==>
        srcPtr > srcPtr0 && (AtGetSuffix(a.t, a.c0 + srcPtr, p) || AtCopyDirect(a.t, a.c0 + srcPtr, p, out)
        || AtGetCBlock(a.t, a.c0 + srcPtr, p, out))
      ensures turn.Pause? ==>
        && turn.hint != 0 && (srcPtr == |src| || full)
        && (AtStoreBlockHeader(a.t, a.c0 + srcPtr, p, out) || AtGetCBlock(a.t, a.c0 + srcPtr, p, out))
    {
      hide Feeds, Reached, InBody, Start, Before, LE32, ReadLE32, Track.Emitted, Track.Valid, InfoIs;
      ghost var F := if a.t.good then a.t.Emitted(hash) else [];
      ghost var base := if a.t.good then BlockStart(a.t) else 0;
      if a.t.good { NextWordAt(a.t); }
      tmpInSize, srcPtr := Gather(tmpIn, tmpInSize, BH_SIZE, src, srcPtr0, a.t.good, F, a.c0, base);
      if tmpInSize < BH_SIZE { return Pause(BH_SIZE - tmpInSize), srcPtr; }
      var word := tmpIn[..BH_SIZE];
      if a.t.good { GatheredWord(F, base, word, NextWord(a.t)); }
      turn := DecodeBlockHeader(ReadLE32(word, 0), full || srcPtr == |src|, a.t, a.c0 + srcPtr, p, out);
    }

    static lemma GatheredWord(F: Bytes, base: nat, word: Bytes, n: U32)
      requires At(F, base, LE32(n)) && base + 4 <= |F| && |word| == 4 && word == F[base..base + 4]
      ensures ReadLE32(word, 0) == n
    {
      hide LE32, ReadLE32;
      assert word[0..4] == word;
      ReadBack32(word, 0, n);
    }

    /** What a block header says. */
    method DecodeBlockHeader(word: U32, stop: bool, ghost t: Track, ghost c: nat, ghost p: nat, ghost out: Bytes)
      returns (turn: Turn)
      requires t.Valid() && Body(out)
      requires (t.good ==> Boundary(t, p, out) && c == BlockStart(t) + BH_SIZE && word == NextWord(t))
      modifies `stage, `tmpInTarget, `blockXxh
      ensures match turn
        case Fail(_) => !t.good
        case Another => AtGetSuffix(t, c, p) || AtCopyDirect(t, c, p, out) || AtGetCBlock(t, c, p, out)
        case Pause(hint) => hint != 0 && stop && AtGetCBlock(t, c, p, out)
    {
      hide Ready, HistoryOk, Encodes, Content, Body, Boundary, AtGetSuffix, AtCopyDirect, AtGetCBlock;
      var nextCBlockSize := word % UNCOMPRESSED_FLAG;
      if word == 0 {
        stage := GetSuffix;
        EndMarkRead(t, c, p, out);
        return Another;
      }
      if nextCBlockSize > maxBlockSize {
        if t.good { BlockSizeFits(t, p, out); }
        return Fail(MaxBlockSizeInvalid);
      }
      if word >= UNCOMPRESSED_FLAG {
        tmpInTarget := nextCBlockSize;
        if info.blockChecksum { blockXxh := []; }
        stage := CopyDirect;
        StoredBlockRead(word, t, c, p, out);
        return Another;
      }
      tmpInTarget := nextCBlockSize + CrcSize();
      stage := GetCBlock;
      CompressedBlockRead(word, t, c, p, out);
      if stop { return Pause(BH_SIZE + tmpInTarget); }
      turn := Another;
    }

    lemma BlockSizeFits(t: Track, p: nat, out: Bytes)
      requires Boundary(t, p, out)
      ensures NextWord(t) != 0 ==> NextWord(t) % UNCOMPRESSED_FLAG <= maxBlockSize
    {
      hide Reached;
      BlockHeaderFacts(t, p);
    }

    lemma EndMarkRead(t: Track, c: nat, p: nat, out: Bytes)
      requires stage == GetSuffix && Body(out)
      requires t.good ==> Boundary(t, p, out) && c == BlockStart(t) + BH_SIZE && NextWord(t) == 0
      ensures AtGetSuffix(t, c, p)
    {
      hide Ready, Encodes, HistoryOk;
      if t.good { BlockHeaderFacts(t, p); }
    }

    lemma StoredBlockRead(word: U32, t: Track, c: nat, p: nat, out: Bytes)
      requires stage == CopyDirect && Body(out) && tmpInTarget == word % UNCOMPRESSED_FLAG <= maxBlockSize
      requires word >= UNCOMPRESSED_FLAG && (info.blockChecksum ==> blockXxh == [])
      requires t.good ==> Boundary(t, p, out) && c == BlockStart(t) + BH_SIZE && NextWord(t) == word
      ensures AtCopyDirect(t, c, p, out)
    {
      hide Ready, Encodes, Reached, DictShape;
      if t.good { BlockHeaderFacts(t, p); }
    }

    lemma CompressedBlockRead(word: U32, t: Track, c: nat, p: nat, out: Bytes)
      requires stage == GetCBlock && Body(out) && word != 0 && word < UNCOMPRESSED_FLAG
      requires word % UNCOMPRESSED_FLAG <= maxBlockSize && tmpInTarget == word % UNCOMPRESSED_FLAG + CrcSize()
      requires t.good ==> Boundary(t, p, out) && c == BlockStart(t) + BH_SIZE && NextWord(t) == word
      ensures AtGetCBlock(t, c, p, out)
    {
      hide Ready, Encodes, Reached, DictShape;
      if t.good { BlockHeaderFacts(t, p); }
    }

    lemma BlockHeaderFacts(t: Track, p: nat)
      requires InBody(t) && p == Before(t.fr, block)
      ensures NextWord(t) == 0 <==> block == |t.fr.blocks|
      ensures block == |t.fr.blocks| ==> p == |t.Content()|
      ensures block < |t.fr.blocks| ==>
        var b := t.fr.blocks[block];
        && NextWord(t) % UNCOMPRESSED_FLAG == |b.data| <= maxBlockSize && (NextWord(t) >= UNCOMPRESSED_FLAG <==> b.raw)
    {
      hide Encodes, Content;
      if block < |t.fr.blocks| {
        var b := t.fr.blocks[block];
        var history := BlockHistory(t.fr.header, t.dictionary, t.fr.blocks[..block]);
        assert ValidBlock(b, BlockSize(t.fr.header.blockSizeId), history);
        if !b.raw { EncodedNotEmpty(b.data, history, b.content); }
      } else {
        assert t.fr.blocks[..block] == t.fr.blocks;
      }
    }

    static lemma EncodedNotEmpty(b: Bytes, history: Bytes, content: Bytes)
      requires Encodes(b, history, content)
      ensures |b| > 0
    {
    }
  
    // -------------------------------------------------------------- history of linked blocks

    /** The bytes produced most recently are those that stand in the destination. */
    static ghost predicate EndsWith(h: Bytes, out: Bytes) {
      |out| <= |h| && h[|h| - |out|..] == out
    }

    /** The first cases of `LZ4F_updateDict`: the history goes on in the destination, or the destination alone
        has become long enough. */
    method UpdateDictInDst(dst: array<byte>, dstPtr: nat, n: nat, ghost good: bool, ghost h: Bytes) returns (done: bool)
      requires info.linked && dstPtr + n <= dst.Length && DictShape(dstPtr)
      requires good ==> EndsWith(h, dst[..dstPtr]) && (dictSize == 0 ==> h == [])
      requires good && dict != Tmp ==> Recent(DictBytes(dst[..dstPtr]), h)
      modifies `dict, `dictSize
      ensures done ==> dict.Dst? && DictShape(dstPtr + n)
      ensures done && good ==> Recent(DictBytes(dst[..dstPtr + n]), h + dst[dstPtr..dstPtr + n])
      ensures done ==> dictSize == old(dictSize) + n || dictSize >= KB64
      ensures !done ==> dict == old(dict) && dictSize == old(dictSize) && (dict == Tmp || dict == User)
      ensures !done ==> dstPtr + n < KB64 && dictSize > 0
    {
      hide Recent;
      ghost var x := dst[dstPtr..dstPtr + n];
      if dictSize == 0 {
        if good { RecentSame(h); }
        dict := Dst(dstPtr);
        assert dst[..dstPtr][dstPtr..] == [];
      }
      if dict.Dst? && dict.pos + dictSize == dstPtr {
        if good { RecentAppend(DictBytes(dst[..dstPtr]), h, x); }
        assert dst[..dstPtr + n][dict.pos..] == dst[..dstPtr][dict.pos..] + x;
        dictSize := dictSize + n;
        return true;
      }
      if dstPtr + n >= KB64 {
        if good { LongOutput(h, dst[..dstPtr], x, dst[..dstPtr + n]); }
        dict := Dst(0);
        dictSize := dstPtr + n;
        assert dst[..dstPtr + n][0..] == dst[..dstPtr + n];
        return true;
      }
      done := false;
    }

    static lemma LongOutput(h: Bytes, out: Bytes, x: Bytes, now: Bytes)
      requires EndsWith(h, out) && now == out + x && |now| >= KB64
      ensures Recent(now, h + x)
    {
      assert (h + x)[|h + x| - |now|..] == h[|h| - |out|..] + x;
      RecentTail(now, h + x);
    }

    /** `memcpy` of the last `keep` bytes of some history to the start of the internal buffer. */
    method CopyToFront(d: Bytes, keep: nat)
      requires keep <= |d| && keep <= tmpOutBuffer.Length
      modifies tmpOutBuffer
      ensures tmpOutBuffer[..keep] == d[|d| - keep..]
    {
      BlockDecoder.CopyExactly(tmpOutBuffer, 0, d, |d| - keep, keep);
      assert tmpOutBuffer[..keep] == tmpOutBuffer[0..keep];
    }

    /** Output copied into the internal buffer to complete the dictionary there, making room first if needed. */
    method UpdateDictAppend(dst: array<byte>, dstPtr: nat, n: nat, ghost good: bool, ghost h: Bytes)
      requires Ready() && info.linked && Apart(dst) && dstPtr + n <= dst.Length && DictShape(dstPtr) && dict == Tmp
      requires n < KB64
      requires good ==> Recent(DictBytes(dst[..dstPtr]), h)
      modifies `dictSize, tmpOutBuffer
      ensures dict == Tmp && DictShape(dstPtr + n)
      ensures good ==> Recent(DictBytes(dst[..dstPtr + n]), h + dst[dstPtr..dstPtr + n])
    {
      hide Recent, IsBlockSize;
      ReadySizes();
      ghost var d, x := tmpOutBuffer[..dictSize], dst[dstPtr..dstPtr + n];
      ghost var keep := dictSize;
      if dictSize + n > maxBufferSize {
        var preserveSize := KB64 - n;
        keep := preserveSize;
        CopyToFront(tmpOutBuffer[..dictSize], preserveSize);
        dictSize := preserveSize;
      } else {
        assert d[|d| - keep..] == d;
      }
      BlockDecoder.CopyExactly(tmpOutBuffer, dictSize, dst[..], dstPtr, n);
      dictSize := dictSize + n;
      assert dst[..][dstPtr..dstPtr + n] == x;
      if good { RecentTrimAppend(d, h, x, keep); }
    }

    /** The end of the caller's dictionary and the output joined in the internal buffer. */
    method UpdateDictJoin(dst: array<byte>, dstPtr: nat, n: nat, ghost good: bool, ghost h: Bytes)
      requires Ready() && info.linked && Apart(dst) && dstPtr + n <= dst.Length && DictShape(dstPtr) && dict == User
      requires n < KB64
      requires good ==> Recent(DictBytes(dst[..dstPtr]), h)
      modifies `dict, `dictSize, tmpOutBuffer
      ensures dict == Tmp && DictShape(dstPtr + n)
      ensures good ==> Recent(DictBytes(dst[..dstPtr + n]), h + dst[dstPtr..dstPtr + n])
    {
      hide Recent, IsBlockSize;
      ReadySizes();
      ghost var x := dst[dstPtr..dstPtr + n];
      var preserveSize := Min(KB64 - n, dictSize);
      if good { RecentTrimAppend(userDict, h, x, preserveSize); }
      CopyToFront(userDict, preserveSize);
      BlockDecoder.CopyExactly(tmpOutBuffer, preserveSize, dst[..], dstPtr, n);
      dict, dictSize := Tmp, preserveSize + n;
      assert dst[..][dstPtr..dstPtr + n] == x;
    }

    /** `LZ4F_updateDict` for output that is not in the internal buffer. */
    method UpdateDict(dst: array<byte>, dstPtr: nat, n: nat, ghost good: bool, ghost h: Bytes)
      requires Ready() && info.linked && Apart(dst) && dstPtr + n <= dst.Length && DictShape(dstPtr)
      requires good ==> EndsWith(h, dst[..dstPtr]) && Recent(DictBytes(dst[..dstPtr]), h)
      modifies `dict, `dictSize, tmpOutBuffer
      ensures DictShape(dstPtr + n)
      ensures good ==> Recent(DictBytes(dst[..dstPtr + n]), h + dst[dstPtr..dstPtr + n])
    {
      hide Ready, EndsWith;
      if good && dictSize == 0 { RecentEmpty(DictBytes(dst[..dstPtr]), h); }
      hide Recent;
      var done := UpdateDictInDst(dst, dstPtr, n, good, h);
      if !done {
        if dict == Tmp {
          UpdateDictAppend(dst, dstPtr, n, good, h);
        } else {
          UpdateDictJoin(dst, dstPtr, n, good, h);
        }
      }
    }

    // -------------------------------------------------------------- stored blocks

    /** Content checksum and remaining size, for the bytes just produced. */
    method Account(bytes: Bytes, ghost good: bool, ghost content: Bytes, ghost q: nat)
      requires good ==> Summed(content, q) && q + |bytes| <= |content| && bytes == content[q..q + |bytes|]
      modifies `xxh, `frameRemainingSize
      ensures good ==> Summed(content, q + |bytes|)
    {
      if info.contentChecksum && !skipChecksum { xxh := xxh + bytes; }
      if info.contentSize != 0 { frameRemainingSize := (frameRemainingSize - |bytes|) % 0x1_0000_0000_0000_0000; }
      assert good ==> content[..q] + bytes == content[..q + |bytes|];
    }

    /** Output of a block that is not in the internal buffer: checksum, remaining size, and history if linked. */
    method Produced(dst: array<byte>, dstPtr: nat, n: nat, ghost a: Call)
      requires Ready() && Apart(dst) && dstPtr + n <= dst.Length && DictShape(dstPtr)
      requires a.t.good ==> a.Wrote(dst[..dstPtr + n]) && Reached(a.t, a.p0 + dstPtr, dst[..dstPtr])
      modifies `xxh, `frameRemainingSize, `dict, `dictSize, tmpOutBuffer
      ensures Body(dst[..dstPtr + n])
      ensures a.t.good ==> Reached(a.t, a.p0 + dstPtr + n, dst[..dstPtr + n])
    {
      hide Ready, Recent, Summed;
      ghost var c, p, x := a.t.Content(), a.p0 + dstPtr, dst[dstPtr..dstPtr + n];
      if a.t.good { LatestOutput(a, dst[..dstPtr + n], dstPtr); }
      Account(dst[dstPtr..dstPtr + n], a.t.good, c, p);
      if info.linked {
        UpdateDict(dst, dstPtr, n, a.t.good, a.t.dictionary + if a.t.good then c[..p] else []);
      }
    }

    static lemma LatestOutput(a: Call, out: Bytes, m: nat)
      requires a.Wrote(out) && m <= |out|
      ensures var c, p := a.t.Content(), a.p0 + m;
        && a.p0 + |out| <= |c| && out[m..] == c[p..p + (|out| - m)]
        && a.t.dictionary + c[..p] + out[m..] == a.t.dictionary + c[..a.p0 + |out|]
        && EndsWith(a.t.dictionary + c[..p], out[..m])
    {
      hide Track.Content, EndsWith;
      var d, c, p := a.t.dictionary, a.t.Content(), a.p0 + m;
      WrittenSlices(c, a.p0, out, m);
      Assoc(d, c[..p], out[m..]);
      Assoc(d, c[..a.p0], out[..m]);
      EndsWithLast(d + c[..a.p0], out[..m]);
    }

    static lemma WrittenSlices(c: Bytes, p0: nat, out: Bytes, m: nat)
      requires m <= |out| && p0 + |out| <= |c| && out == c[p0..p0 + |out|]
      ensures out[m..] == c[p0 + m..p0 + |out|]
      ensures c[..p0 + m] == c[..p0] + out[..m] && c[..p0 + |out|] == c[..p0 + m] + out[m..]
    {
      SubSlice(c, p0, p0 + m, p0 + |out|);
    }

    static lemma EndsWithLast(h: Bytes, x: Bytes)
      ensures EndsWith(h + x, x)
    {
    }

    /** The next bytes of a stored block, in the input and in the content. */
    lemma StoredBytes(a: Call, dstPtr: nat, srcPtr: nat, n: nat, out: Bytes)
      requires a.t.good && Fed(a, srcPtr) && AtCopyDirect(a.t, a.c0 + srcPtr, a.p0 + dstPtr, out) && |out| == dstPtr
      requires a.Wrote(out)
      requires n <= tmpInTarget && srcPtr + n <= |a.src|
      ensures var piece := a.src[srcPtr..srcPtr + n];
        NextPiece(a.t, piece) && a.Wrote(out + piece) && Fed(a, srcPtr + n)
    {
      hide Feeds, Reached, Content, EmitFrame, Encodes, EmitBlocks, Start, Before, Body, ValidFrame;
      StoredContent(a, out, n);
      StoredInput(a, srcPtr, n);
    }

    lemma StoredInput(a: Call, srcPtr: nat, n: nat)
      requires a.t.good && Fed(a, srcPtr) && InBlock(a.t, true) && srcPtr + n <= |a.src|
      requires n <= tmpInTarget <= |a.t.fr.blocks[block].data|
      requires a.c0 + srcPtr == BlockStart(a.t) + BH_SIZE + |a.t.fr.blocks[block].data| - tmpInTarget
      ensures var data := a.t.fr.blocks[block].data;
        var done := |data| - tmpInTarget;
        a.src[srcPtr..srcPtr + n] == data[done..done + n] && Fed(a, srcPtr + n)
    {
      hide Feeds, Content, EmitFrame, ValidBlock, EmitBlocks;
      var F, data := a.t.Emitted(hash), a.t.fr.blocks[block].data;
      BlockAt(a.t.fr, block, hash);
      FeedSlice(F, a.c0, a.src, srcPtr, srcPtr + n);
      SliceOfAt(F, BlockStart(a.t) + BH_SIZE, data, |data| - tmpInTarget, n);
    }

    lemma StoredContent(a: Call, out: Bytes, n: nat)
      requires a.t.good && InBlock(a.t, true) && n <= tmpInTarget <= |a.t.fr.blocks[block].data| && a.Wrote(out)
      requires a.p0 + |out| == Before(a.t.fr, block) + |a.t.fr.blocks[block].data| - tmpInTarget
      ensures var data := a.t.fr.blocks[block].data;
        var done := |data| - tmpInTarget;
        a.Wrote(out + data[done..done + n])
    {
      hide Content, EmitFrame, EmitBlocks, Start;
      var data, content := a.t.fr.blocks[block].data, a.t.Content();
      BlockDone(a.t);
      ContentAt(a.t.fr, block);
      SliceOfAt(content, Before(a.t.fr, block), data, |data| - tmpInTarget, n);
      SliceJoin(content, a.p0, a.p0 + |out|, a.p0 + |out| + n);
    }

    /** After the last byte of a block (and of its checksum), the next one. */
    lemma BlockDone(t: Track)
      requires InBody(t) && block < |t.fr.blocks|
      ensures Start(t.fr, block + 1,
                    hash) == BlockStart(t) + BH_SIZE + |t.fr.blocks[block].data| + CrcSize() <= |t.Emitted(hash)|
      ensures Before(t.fr, block + 1) == Before(t.fr, block) + |t.fr.blocks[block].content| <= |t.Content()|
      ensures t.fr.blocks[block].raw ==> t.fr.blocks[block].content == t.fr.blocks[block].data
    {
      hide Content, EmitFrame, Encodes;
      BlockAt(t.fr, block, hash);
      ContentAt(t.fr, block);
      assert ValidBlock(t.fr.blocks[block], BlockSize(t.fr.header.blockSizeId),
                        BlockHistory(t.fr.header, t.dictionary, t.fr.blocks[..block]));
    }

    /** Some bytes of a stored block have been copied. */
    method Copied(piece: Bytes, ghost t: Track, ghost c: nat, ghost p: nat, ghost out: Bytes) returns (turn: Turn)
      requires stage == CopyDirect && Body(out) && |piece| <= tmpInTarget <= maxBlockSize
      requires t.good ==> CopyPart(t, c, p) && NextPiece(t, piece) && Reached(t, p + |piece|, out)
      modifies `stage, `tmpInSize, `tmpInTarget, `blockXxh, `block
      ensures match turn
        case Fail(_) => false
        case Another => AtGetBlockChecksum(t, c + |piece|, p + |piece|, out)
          || AtGetBlockHeader(t, c + |piece|, p + |piece|, out)
        case Pause(hint) => hint != 0 && |piece| < old(tmpInTarget) && AtCopyDirect(t, c + |piece|, p + |piece|, out)
    {
      hide Ready, Reached, DictShape, Body, AtGetBlockChecksum, AtGetBlockHeader, AtCopyDirect, NextPiece, CopyPart,
           CopiedTo, Passed;
      Adding(piece, t, c, p);
      if info.blockChecksum && !skipChecksum { blockXxh := blockXxh + piece; }
      if |piece| == tmpInTarget {
        if info.blockChecksum {
          tmpInSize := 0;
          stage := GetBlockChecksum;
          WholeCopied(t, c + |piece|, p + |piece|, out);
        } else {
          NextBlock(t, c + |piece|, p + |piece|);
          ToNextBlock(t, c + |piece|, p + |piece|, out);
        }
        return Another;
      }
      tmpInTarget := tmpInTarget - |piece|;
      PartCopied(t, c + |piece|, p + |piece|, out);
      turn := Pause(tmpInTarget + CrcSize() + BH_SIZE);
    }

    /** All but `left` bytes of a stored block have been copied; `sum` has been fed to its checksum. */
    ghost predicate CopiedTo(t: Track, c: nat, p: nat, left: nat, sum: Bytes)
      reads `info, `maxBlockSize, `block, `skipChecksum
    {
      && InBlock(t, true) && left <= |t.fr.blocks[block].data|
      && var done := |t.fr.blocks[block].data| - left;
      && c == BlockStart(t) + BH_SIZE + done && p == Before(t.fr, block) + done
      && (info.blockChecksum && !skipChecksum ==> sum == t.fr.blocks[block].data[..done])
    }

    lemma Adding(piece: Bytes, t: Track, c: nat, p: nat)
      requires t.good ==> CopyPart(t, c, p) && NextPiece(t, piece)
      ensures t.good ==> |piece| <= tmpInTarget
      ensures t.good ==> CopiedTo(t, c + |piece|, p + |piece|, tmpInTarget - |piece|, blockXxh + piece)
      ensures t.good && (!info.blockChecksum || skipChecksum) ==>
        CopiedTo(t, c + |piece|, p + |piece|, tmpInTarget - |piece|, blockXxh)
    {
      if t.good {
        var data, done := t.fr.blocks[block].data, |t.fr.blocks[block].data| - tmpInTarget;
        SliceJoin(data, 0, done, done + |piece|);
        assert data[0..done + |piece|] == data[..done + |piece|] && data[0..done] == data[..done];
      }
    }

    lemma WholeCopied(t: Track, c: nat, p: nat, out: Bytes)
      requires stage == GetBlockChecksum && Body(out) && tmpInSize == 0 && info.blockChecksum
      requires t.good ==> CopiedTo(t, c, p, 0, blockXxh) && Reached(t, p, out)
      ensures AtGetBlockChecksum(t, c, p, out)
    {
      hide Body, Reached;
      if t.good {
        var data := t.fr.blocks[block].data;
        assert data[..|data|] == data;
        BlockDone(t);
      }
    }

    lemma PartCopied(t: Track, c: nat, p: nat, out: Bytes)
      requires stage == CopyDirect && Body(out) && tmpInTarget <= maxBlockSize
      requires t.good ==> CopiedTo(t, c, p, tmpInTarget, blockXxh) && Reached(t, p, out)
      ensures AtCopyDirect(t, c, p, out)
    {
      hide Body, Reached;
    }

    /** The whole of block `block` has been read and its content produced. */
    ghost predicate Passed(t: Track, c: nat, p: nat)
      reads `info, `maxBlockSize, `block
    {
      t.good ==> InBody(t) && block < |t.fr.blocks| && c == Start(t.fr, block + 1, hash) && p == Before(t.fr, block + 1)
    }

    /** Behind a stored block without checksum. */
    lemma NextBlock(t: Track, c: nat, p: nat)
      requires (t.good ==> CopiedTo(t, c, p, 0, blockXxh)) && !info.blockChecksum
      ensures Passed(t, c, p)
    {
      hide Encodes, Content;
      if t.good { BlockDone(t); }
    }

    method ToNextBlock(ghost t: Track, ghost c: nat, ghost p: nat, ghost out: Bytes)
      requires Body(out) && Passed(t, c, p) && (t.good ==> Reached(t, p, out))
      modifies `stage, `block
      ensures AtGetBlockHeader(t, c, p, out)
    {
      hide Body, Reached, Start, Before, Track.Valid, InfoIs;
      block := block + 1;
      stage := GetBlockHeader;
    }

    /** `dstage_copyDirect`. */
    method TurnCopyDirect(dst: array<byte>, dstPtr0: nat, src: Bytes, srcPtr0: nat, ghost a: Call)
      returns (turn: Turn, dstPtr: nat, srcPtr: nat)
      requires Buffers() && Apart(dst) && a.src == src && Fed(a, srcPtr0) && Wrote(a, dst, dstPtr0)
      requires AtCopyDirect(a.t, a.c0 + srcPtr0, a.p0 + dstPtr0, dst[..dstPtr0])
      modifies `stage, `tmpInSize, `tmpInTarget, `blockXxh, `xxh, `frameRemainingSize, `dict, `dictSize, `block,
               tmpOutBuffer, dst
      ensures turn.Fail? ==> !a.t.good
      ensures srcPtr0 <= srcPtr && (!turn.Fail? ==> Fed(a, srcPtr))
      ensures dstPtr0 <= dstPtr && Wrote(a, dst, dstPtr)
      ensures turn == Another ==>
        AtGetBlockChecksum(a.t, a.c0 + srcPtr, a.p0 + dstPtr, dst[..dstPtr])
        || AtGetBlockHeader(a.t, a.c0 + srcPtr, a.p0 + dstPtr, dst[..dstPtr])
      ensures turn.Pause? ==>
        turn.hint != 0 && (srcPtr == |src| || dstPtr == dst.Length)
        && AtCopyDirect(a.t, a.c0 + srcPtr, a.p0 + dstPtr, dst[..dstPtr])
    {
      hide Feeds, Reached, Start, Before, Call.Wrote, Track.Emitted, Track.Content, Track.Valid, InfoIs, Ready,
           CopyPart, NextPiece, AtGetBlockChecksum, AtGetBlockHeader;
      var sizeToCopy := Min(tmpInTarget, Min(|src| - srcPtr0, dst.Length - dstPtr0));
      ghost var out0 := dst[..dstPtr0];
      dstPtr, srcPtr := dstPtr0 + sizeToCopy, srcPtr0 + sizeToCopy;
      if a.t.good { StoredBytes(a, dstPtr0, srcPtr0, sizeToCopy, dst[..dstPtr0]); }
      BlockDecoder.CopyExactly(dst, dstPtr0, src, srcPtr0, sizeToCopy);
      assert dst[..dstPtr0] == out0;
      Produced(dst, dstPtr0, sizeToCopy, a);
      turn := Copied(src[srcPtr0..srcPtr], a.t, a.c0 + srcPtr0, a.p0 + dstPtr0, dst[..dstPtr]);
    }

    /** `dstage_getBlockChecksum`. */
    method TurnGetBlockChecksum(src: Bytes, srcPtr0: nat, ghost a: Call, ghost p: nat, ghost out: Bytes)
      returns (turn: Turn, srcPtr: nat)
      requires Buffers() && a.src == src && Fed(a, srcPtr0) && AtGetBlockChecksum(a.t, a.c0 + srcPtr0, p, out)
      modifies `stage, `tmpInSize, `block, header
      ensures turn.Fail? ==> !a.t.good
      ensures srcPtr0 <= srcPtr && (!turn.Fail? ==> Fed(a, srcPtr))
      ensures turn == Another ==> srcPtr > srcPtr0 && AtGetBlockHeader(a.t, a.c0 + srcPtr, p, out)
      ensures turn.Pause? ==> turn.hint != 0 && srcPtr == |src| && AtGetBlockChecksum(a.t, a.c0 + srcPtr, p, out)
    {
      hide Reached, Start, Before, Track.Valid, InfoIs, Ready, Feeds, Track.Emitted, Gathered;
      if a.t.good { BlockDone(a.t); }
      var complete, crc;
      complete, crc, srcPtr := ReadBlockChecksum(src, srcPtr0, a, p, out);
      if !complete { return Pause(1), srcPtr; }
      if !skipChecksum && crc != hash(blockXxh) { return Fail(BlockChecksumInvalid), srcPtr; }
      ToNextBlock(a.t, a.c0 + srcPtr, p, out);
      turn := Another;
    }

    /** Four bytes, from the input directly or gathered in `header`. */
    method ReadBlockChecksum(src: Bytes, srcPtr0: nat, ghost a: Call, ghost p: nat, ghost out: Bytes)
      returns (complete: bool, crc: U32, srcPtr: nat)
      requires Buffers() && a.src == src && Fed(a, srcPtr0) && AtGetBlockChecksum(a.t, a.c0 + srcPtr0, p, out)
      modifies `tmpInSize, header
      ensures srcPtr0 <= srcPtr && Fed(a, srcPtr)
      ensures complete ==> srcPtr > srcPtr0
      ensures complete && a.t.good ==>
        && (!skipChecksum ==> crc == hash(blockXxh))
        && a.c0 + srcPtr == BlockStart(a.t) + BH_SIZE + |a.t.fr.blocks[block].data| + BF_SIZE
      ensures !complete ==> srcPtr == |src| && AtGetBlockChecksum(a.t, a.c0 + srcPtr, p, out)
    {
      hide Feeds, Reached, Start, Before, LE32, ReadLE32, Track.Emitted, Track.Valid, InfoIs, Ready;
      ghost var F := if a.t.good then a.t.Emitted(hash) else [];
      ghost var base := if a.t.good then BlockStart(a.t) + BH_SIZE + |a.t.fr.blocks[block].data| else 0;
      ghost var stored: U32 := 0;
      if a.t.good {
        BlockCrcAt(a.t);
        stored := hash(a.t.fr.blocks[block].data);
      }
      complete := true;
      if |src| - srcPtr0 >= 4 && tmpInSize == 0 {
        if a.t.good {
          FeedAt(F, a.c0, src, srcPtr0, LE32(stored));
          ReadBack32(src, srcPtr0, stored);
        }
        crc := ReadLE32(src, srcPtr0);
        srcPtr := srcPtr0 + 4;
      } else {
        tmpInSize, srcPtr := Gather(header, tmpInSize, 4, src, srcPtr0, a.t.good, F, a.c0, base);
        if tmpInSize < 4 { return false, 0, srcPtr; }
        var word := header[..4];
        if a.t.good { GatheredWord(F, base, word, stored); }
        crc := ReadLE32(word, 0);
      }
    }

    lemma BlockCrcAt(t: Track)
      requires InBody(t) && block < |t.fr.blocks| && info.blockChecksum
      ensures var at, data := BlockStart(t) + BH_SIZE + |t.fr.blocks[block].data|, t.fr.blocks[block].data;
        && At(t.Emitted(hash), at, LE32(hash(data))) && at + BF_SIZE <= |t.Emitted(hash)|
    {
      hide LE32, EmitFrame, Content;
      BlockAt(t.fr, block, hash);
    }

    // -------------------------------------------------------------- compressed blocks

    /** `dstage_getCBlock`. */
    method TurnGetCBlock(dst: array<byte>, dstPtr0: nat, src: Bytes, srcPtr0: nat, ghost a: Call)
      returns (turn: Turn, dstPtr: nat, srcPtr: nat)
      requires Buffers() && Apart(dst) && a.src == src && Fed(a, srcPtr0) && Wrote(a, dst, dstPtr0)
      requires AtGetCBlock(a.t, a.c0 + srcPtr0, a.p0 + dstPtr0, dst[..dstPtr0])
      modifies `stage, `tmpInSize, `tmpInTarget, `xxh, `frameRemainingSize, `dict, `dictSize, `block, tmpOutBuffer, dst,
               `tmpOut, `tmpOutSize, `tmpOutStart
      ensures turn.Fail? ==> !a.t.good
      ensures srcPtr0 <= srcPtr && (!turn.Fail? ==> Fed(a, srcPtr))
      ensures dstPtr0 <= dstPtr && Wrote(a, dst, dstPtr)
      ensures turn == Another ==>
        || AtStoreCBlock(a.t, a.c0 + srcPtr, a.p0 + dstPtr, dst[..dstPtr])
        || AtGetBlockHeader(a.t, a.c0 + srcPtr, a.p0 + dstPtr, dst[..dstPtr])
        || AtFlushOut(a.t, a.c0 + srcPtr, a.p0 + dstPtr, dst[..dstPtr])
      ensures !turn.Pause?
    {
      hide Feeds, Reached, Start, Before, Call.Wrote, Track.Emitted, Track.Valid, InfoIs, Ready, Body, AtGetBlockHeader,
           AtFlushOut;
      dstPtr, srcPtr := dstPtr0, srcPtr0;
      if |src| - srcPtr < tmpInTarget {
        tmpInSize := 0;
        stage := StoreCBlock;
        return Another, dstPtr, srcPtr;
      }
      srcPtr := srcPtr + tmpInTarget;
      if a.t.good { BlockInInput(a, srcPtr0, a.p0 + dstPtr0, dst[..dstPtr0]); }
      turn, dstPtr := DecodeBlock(src[srcPtr0..srcPtr], dst, dstPtr0, a, a.c0 + srcPtr);
    }

    /** A compressed block and its checksum as they stand in the frame. */
    ghost function BlockBytes(t: Track): Bytes
      requires InBody(t) && block < |t.fr.blocks|
      reads `info, `maxBlockSize, `block
    {
      t.fr.blocks[block].data + Crc(info.blockChecksum, t.fr.blocks[block].data, hash)
    }

    lemma BlockInInput(a: Call, srcPtr: nat, p: nat, out: Bytes)
      requires a.t.good && Fed(a, srcPtr) && AtGetCBlock(a.t, a.c0 + srcPtr, p, out) && srcPtr + tmpInTarget <= |a.src|
      ensures a.src[srcPtr..srcPtr + tmpInTarget] == BlockBytes(a.t) && Fed(a, srcPtr + tmpInTarget)
      ensures a.c0 + srcPtr + tmpInTarget == Start(a.t.fr, block + 1, hash)
    {
      hide Feeds, Reached, Content, EmitFrame, ValidBlock;
      BlockAt(a.t.fr, block, hash);
      FeedAt(a.t.Emitted(hash), a.c0, a.src, srcPtr, BlockBytes(a.t));
    }

    /** A block and its checksum, taken apart again. */
    static lemma BlockBytesParts(data: Bytes, checksum: bool, hash: Bytes -> U32, sel: Bytes)
      requires sel == data + Crc(checksum, data, hash)
      ensures sel[..|data|] == data && (checksum ==> ReadLE32(sel, |data|) == hash(data))
    {
      hide LE32, ReadLE32;
      if checksum { ReadBack32(sel, |data|, hash(data)); }
    }

    /** `LZ4_decompress_safe_usingDict` takes the dictionary size as an int: of a huge one only the end is given. */
    static function Window(d: Bytes): (r: Bytes)
      ensures |r| == if |d| > GB then KB64 else |d|
    {
      if |d| > GB then d[|d| - KB64..] else d
    }

    /** The dictionary of a block decodes it. */
    lemma BlockDecodes(t: Track, p: nat, out: Bytes)
      requires InBlock(t, false) && p == Before(t.fr, block) && DictShape(|out|) && Reached(t, p, out)
      ensures var b := t.fr.blocks[block];
        Encodes(b.data, Window(DictBytes(out)), b.content) && |b.content| <= maxBlockSize
    {
      hide Encodes, Content, Recent, EmitFrame;
      var b, d := t.fr.blocks[block], DictBytes(out);
      var history := BlockHistory(t.fr.header, t.dictionary, t.fr.blocks[..block]);
      assert ValidBlock(b, BlockSize(t.fr.header.blockSizeId), history);
      ContentAt(t.fr, block);
      RecentSame(d);
      assert Recent(d, history);
      if |d| > GB { RecentTrim(d, history, KB64); }
      RecentDecodes(b.data, history, Window(d), b.content);
    }

    /** The dictionary as it is passed to the block decoder: where it lies if it ends at the output, else its bytes. */
    method LocateDict(dst: array<byte>, dstPtr: nat, adjacent: bool) returns (size: nat, ext: Bytes)
      requires dstPtr <= dst.Length && DictShape(dstPtr)
      ensures size == |Window(DictBytes(dst[..dstPtr]))|
      ensures ext == if adjacent then [] else Window(DictBytes(dst[..dstPtr]))
    {
      size := if dictSize > GB then KB64 else dictSize;
      ext := [];
      if !adjacent {
        match dict
        case Nowhere =>
        case User => ext := userDict[dictSize - size..];
        case Tmp => ext := tmpOutBuffer[dictSize - size..dictSize];
        case Dst(pos) => ext := dst[dstPtr - size..dstPtr];
      }
    }

    /** A complete block: its checksum (compared even when checksums are to be skipped), then its decoding, to the
        destination if there is room for any block and the history does not lie right where the block would go in
        the internal buffer. */
    method DecodeBlock(sel: Bytes, dst: array<byte>, dstPtr0: nat, ghost a: Call, ghost c: nat)
      returns (turn: Turn, dstPtr: nat)
      requires Buffers() && Apart(dst) && Wrote(a, dst, dstPtr0) && a.t.Valid()
      requires Compressed(a.t, a.p0 + dstPtr0, dst[..dstPtr0]) && |sel| == tmpInTarget
      requires a.t.good ==> sel == BlockBytes(a.t) && c == Start(a.t.fr, block + 1, hash)
      modifies `stage, `tmpInTarget, `xxh, `frameRemainingSize, `dict, `dictSize, `block, tmpOutBuffer, dst,
               `tmpOut, `tmpOutSize, `tmpOutStart
      ensures Wrote(a, dst, dstPtr) && dstPtr0 <= dstPtr
      ensures match turn
        case Fail(_) => !a.t.good
        case Another => AtGetBlockHeader(a.t, c, a.p0 + dstPtr, dst[..dstPtr])
          || AtFlushOut(a.t, c, a.p0 + dstPtr, dst[..dstPtr])
        case Pause(_) => false
      ensures var n := old(tmpInTarget) - CrcSize();
        info.blockChecksum && ReadLE32(sel, n) != hash(sel[..n]) ==> turn == Fail(BlockChecksumInvalid)
    {
      hide Reached, Start, Before, Call.Wrote, Track.Valid, InfoIs, Ready, DictShape, Crc, LE32, ReadLE32;
      if a.t.good { BlockBytesParts(a.t.fr.blocks[block].data, info.blockChecksum, hash, sel); }
      dstPtr := dstPtr0;
      if info.blockChecksum {
        tmpInTarget := tmpInTarget - BF_SIZE;
        if ReadLE32(sel, tmpInTarget) != hash(sel[..tmpInTarget]) { return Fail(BlockChecksumInvalid), dstPtr; }
      }
      var data := sel[..tmpInTarget];
      if dst.Length - dstPtr >= maxBlockSize && !(dict == Tmp && dictSize == tmpOut) {
        turn, dstPtr := DecodeDirect(data, dst, dstPtr0, a, c);
      } else {
        turn := DecodeToTmp(data, dst, dstPtr0, a, c);
      }
    }

    method DecodeDirect(data: Bytes, dst: array<byte>, dstPtr0: nat, ghost a: Call, ghost c: nat)
      returns (turn: Turn, dstPtr: nat)
      requires Apart(dst) && Wrote(a, dst, dstPtr0) && Body(dst[..dstPtr0]) && dst.Length - dstPtr0 >= maxBlockSize
      requires a.t.good ==>
        && InBlock(a.t, false) && data == a.t.fr.blocks[block].data && a.p0 + dstPtr0 == Before(a.t.fr, block)
        && Reached(a.t, a.p0 + dstPtr0, dst[..dstPtr0]) && c == Start(a.t.fr, block + 1, hash)
      modifies `stage, `xxh, `frameRemainingSize, `dict, `dictSize, `block, tmpOutBuffer, dst
      ensures Wrote(a, dst, dstPtr) && dstPtr0 <= dstPtr
      ensures turn.Fail? ==> !a.t.good
      ensures !turn.Fail? ==> turn == Another && AtGetBlockHeader(a.t, c, a.p0 + dstPtr, dst[..dstPtr])
    {
      hide Reached, Start, Before, Track.Valid, InfoIs, Encodes, Window, Call.Wrote, IsBlockSize;
      dstPtr := dstPtr0;
      ReadySizes();
      ghost var out0 := dst[..dstPtr0];
      ghost var content: Bytes := if a.t.good then a.t.fr.blocks[block].content else [];
      if a.t.good {
        BlockDecodes(a.t, a.p0 + dstPtr0, out0);
        BlockWritten(a, out0);
      }
      var decodedSize := DecodeAtDst(data, dst, dstPtr0, content);
      if decodedSize < 0 { return Fail(DecompressionFailed), dstPtr; }
      assert dst[..dstPtr0 + decodedSize] == out0 + dst[dstPtr0..dstPtr0 + decodedSize];
      dstPtr := dstPtr0 + decodedSize;
      FinishDirect(dst, dstPtr0, decodedSize, a, c);
      turn := Another;
    }

    /** The block goes to the destination, after the dictionary wherever that lies. */
    method DecodeAtDst(data: Bytes, dst: array<byte>, dstPtr0: nat, ghost content: Bytes) returns (decodedSize: int)
      requires Apart(dst) && DictShape(dstPtr0) && maxBlockSize > 0 && dstPtr0 + maxBlockSize <= dst.Length
      modifies dst
      ensures decodedSize <= maxBlockSize && dst[..dstPtr0] == old(dst[..dstPtr0])
      ensures old(Encodes(data, Window(DictBytes(dst[..dstPtr0])), content) && |content| <= maxBlockSize)
        ==> decodedSize == |content| && dst[dstPtr0..dstPtr0 + decodedSize] == content
    {
      hide Encodes, DecoderApi.GivenDict, Window, DecoderApi.HandedDict, DecoderApi.DecodedAs;
      ghost var out0 := dst[..dstPtr0];
      var adjacent := dict.Dst?;
      var size, ext := LocateDict(dst, dstPtr0, adjacent);
      DictGiven(out0, adjacent, size, ext);
      decodedSize := DecoderApi.DecompressUsingDict(data, dst, dstPtr0, maxBlockSize, adjacent, size, ext, content);
      assert dst[..dstPtr0] == out0;
    }

    /** The block is complete in the destination. */
    method FinishDirect(dst: array<byte>, dstPtr0: nat, n: nat, ghost a: Call, ghost c: nat)
      requires Apart(dst) && dstPtr0 + n <= dst.Length && Wrote(a, dst, dstPtr0 + n) && Body(dst[..dstPtr0])
      requires a.t.good ==>
        && InBlock(a.t, false) && n == |a.t.fr.blocks[block].content| && a.p0 + dstPtr0 == Before(a.t.fr, block)
        && Reached(a.t, a.p0 + dstPtr0, dst[..dstPtr0]) && c == Start(a.t.fr, block + 1, hash)
      modifies `stage, `xxh, `frameRemainingSize, `dict, `dictSize, `block, tmpOutBuffer
      ensures AtGetBlockHeader(a.t, c, a.p0 + dstPtr0 + n, dst[..dstPtr0 + n])
    {
      hide Reached, Start, Before, Track.Valid, InfoIs, Call.Wrote, Ready;
      if a.t.good { BlockDone(a.t); }
      Produced(dst, dstPtr0, n, a);
      ToNextBlock(a.t, c, a.p0 + dstPtr0 + n, dst[..dstPtr0 + n]);
    }

    lemma BlockWritten(a: Call, out: Bytes)
      requires a.t.good && InBody(a.t) && block < |a.t.fr.blocks| && a.Wrote(out)
      requires a.p0 + |out| == Before(a.t.fr, block)
      ensures a.Wrote(out + a.t.fr.blocks[block].content)
    {
      hide Content;
      ContentAt(a.t.fr, block);
      SliceJoin(a.t.Content(), a.p0, a.p0 + |out|, a.p0 + |out| + |a.t.fr.blocks[block].content|);
    }

    lemma DictGiven(out: Bytes, adjacent: bool, size: nat, ext: Bytes)
      requires DictShape(|out|) && adjacent == dict.Dst? && size == |Window(DictBytes(out))|
      requires ext == if adjacent then [] else Window(DictBytes(out))
      ensures size <= |out| || !adjacent
      ensures DecoderApi.GivenDict(adjacent, out, size, ext) == Window(DictBytes(out))
    {
    }

    /** Where a linked block is decoded in the internal buffer: after the history that is there, cut to 64 KB when
        it has grown too long, or after the room for history that is elsewhere. */
    method PlaceTmpOut(dst: array<byte>, dstPtr: nat, ghost good: bool, ghost h: Bytes)
      requires Ready() && info.linked && Apart(dst) && dstPtr <= dst.Length && DictShape(dstPtr)
      requires good ==> Recent(DictBytes(dst[..dstPtr]), h)
      modifies `dictSize, `tmpOut, tmpOutBuffer
      ensures tmpOut + maxBlockSize <= tmpOutBuffer.Length && DictShape(dstPtr)
      ensures if dict == Tmp then dictSize == tmpOut <= KB128
        else dictSize == old(dictSize) && tmpOut == Min(dictSize, KB64)
      ensures good ==> Recent(DictBytes(dst[..dstPtr]), h)
    {
      hide Recent, IsBlockSize;
      ReadySizes();
      if dict == Tmp {
        if dictSize > KB128 {
          ghost var d := tmpOutBuffer[..dictSize];
          CopyToFront(tmpOutBuffer[..dictSize], KB64);
          dictSize := KB64;
          if good { RecentTrim(d, h, KB64); }
        }
        tmpOut := dictSize;
      } else {
        tmpOut := Min(dictSize, KB64);
      }
    }

    method PlaceBlock(dst: array<byte>, dstPtr: nat, ghost t: Track, ghost p: nat)
      requires Apart(dst) && dstPtr <= dst.Length && Body(dst[..dstPtr]) && (t.good ==> Reached(t, p, dst[..dstPtr]))
      modifies `dictSize, `tmpOut, tmpOutBuffer
      ensures Body(dst[..dstPtr]) && tmpOut + maxBlockSize <= tmpOutBuffer.Length && maxBlockSize > 0
      ensures dict == Tmp ==> dictSize == tmpOut <= KB128
      ensures info.linked && dict != Tmp ==> tmpOut == Min(dictSize, KB64)
      ensures t.good ==> Reached(t, p, dst[..dstPtr])
    {
      ghost var h: Bytes := if t.good then t.dictionary + t.Content()[..p] else [];
      hide Summed, Recent, IsBlockSize, Track.Content;
      ReadySizes();
      if info.linked { PlaceTmpOut(dst, dstPtr, t.good, h); }
    }

    method DecodeToTmp(data: Bytes, dst: array<byte>, dstPtr: nat, ghost a: Call, ghost c: nat) returns (turn: Turn)
      requires Apart(dst) && dstPtr <= dst.Length && Body(dst[..dstPtr]) && a.t.Valid()
      requires a.t.good ==>
        && InBlock(a.t, false) && data == a.t.fr.blocks[block].data && a.p0 + dstPtr == Before(a.t.fr, block)
        && Reached(a.t, a.p0 + dstPtr, dst[..dstPtr]) && c == Start(a.t.fr, block + 1, hash)
      modifies `stage, `xxh, `frameRemainingSize, `dictSize, `tmpOut, `tmpOutSize, `tmpOutStart, tmpOutBuffer
      ensures turn.Fail? ==> !a.t.good
      ensures !turn.Fail? ==> turn == Another && AtFlushOut(a.t, c, a.p0 + dstPtr, dst[..dstPtr])
    {
      hide Summed, Start, Before, InBlock, Ready, DictShape, Reached;
      ghost var p := a.p0 + dstPtr;
      PlaceBlock(dst, dstPtr, a.t, p);
      var decodedSize := DecodePlaced(data, dst, dstPtr, a.t, p);
      if decodedSize < 0 { return Fail(DecompressionFailed); }
      EnterFlush(decodedSize, a.t, c, p, dst[..dstPtr]);
      turn := Another;
    }

    method DecodePlaced(data: Bytes, dst: array<byte>, dstPtr: nat, ghost t: Track, ghost p: nat)
      returns (decodedSize: int)
      requires Apart(dst) && dstPtr <= dst.Length && Body(dst[..dstPtr]) && tmpOut + maxBlockSize <= tmpOutBuffer.Length
      requires maxBlockSize > 0
      requires dict == Tmp ==> dictSize == tmpOut <= KB128
      requires t.good ==>
        && InBlock(t, false)
        && data == t.fr.blocks[block].data
        && p == Before(t.fr, block)
        && Reached(t, p, dst[..dstPtr])
      modifies tmpOutBuffer
      ensures decodedSize <= maxBlockSize
      ensures t.good ==>
        && decodedSize == |t.fr.blocks[block].content|
        && tmpOutBuffer[tmpOut..tmpOut + decodedSize] == t.fr.blocks[block].content
        && Reached(t, p, dst[..dstPtr])
    {
      hide Summed, Start, Before, Track.Valid, InfoIs, Encodes, Window, Track.Content, Recent, DictBytes, Ready,
           DictShape;
      ghost var content: Bytes := if t.good then t.fr.blocks[block].content else [];
      if t.good { BlockDecodes(t, p, dst[..dstPtr]); }
      decodedSize := DecodeAtTmpOut(data, dst, dstPtr, content);
    }

    /** The block is complete in the internal buffer. */
    method EnterFlush(decodedSize: nat, ghost t: Track, ghost c: nat, ghost p: nat, ghost out: Bytes)
      requires Body(out) && decodedSize <= maxBlockSize && tmpOut + maxBlockSize <= tmpOutBuffer.Length
      requires t.good ==>
        && InBlock(t, false) && p == Before(t.fr, block) && c == Start(t.fr, block + 1, hash)
        && tmpOutBuffer[tmpOut..tmpOut + decodedSize] == t.fr.blocks[block].content && Reached(t, p, out)
      requires info.linked ==> if dict == Tmp then dictSize == tmpOut else tmpOut == Min(dictSize, KB64)
      modifies `stage, `xxh, `frameRemainingSize, `tmpOutSize, `tmpOutStart
      ensures AtFlushOut(t, c, p, out)
    {
      hide Summed, Recent, Start, Before, Track.Valid, InfoIs, Track.Content, Ready, FlushHistory, DictBytes, DictShape;
      if t.good { ContentOfBlock(t, p); }
      Account(tmpOutBuffer[tmpOut..tmpOut + decodedSize], t.good, t.Content(), p);
      tmpOutSize, tmpOutStart := decodedSize, 0;
      stage := FlushOut;
      if t.good { FlushBegins(t.dictionary, t.Content()[..p], t.fr.blocks[block].content, out); }
    }

    lemma ContentOfBlock(t: Track, p: nat)
      requires InBlock(t, false) && p == Before(t.fr, block)
      ensures var x, c := t.fr.blocks[block].content, t.Content(); p + |x| <= |c| && c[p..p + |x|] == x
    {
      hide Content;
      ContentAt(t.fr, block);
    }

    /** The block decoder working in the internal buffer. */
    method DecodeAtTmpOut(data: Bytes, dst: array<byte>, dstPtr: nat, ghost content: Bytes) returns (decodedSize: int)
      requires Apart(dst) && dstPtr <= dst.Length && DictShape(dstPtr) && tmpOut + maxBlockSize <= tmpOutBuffer.Length
      requires maxBlockSize > 0
      requires dict == Tmp ==> dictSize == tmpOut <= KB128
      modifies tmpOutBuffer
      ensures decodedSize <= maxBlockSize
      ensures old(Encodes(data, Window(DictBytes(dst[..dstPtr])), content) && |content| <= maxBlockSize)
        ==> decodedSize == |content| && tmpOutBuffer[tmpOut..tmpOut + decodedSize] == content
      ensures DictBytes(dst[..dstPtr]) == old(DictBytes(dst[..dstPtr]))
    {
      hide Encodes, DecoderApi.GivenDict, Window, DecoderApi.HandedDict, DecoderApi.DecodedAs;
      ghost var out, before := dst[..dstPtr], tmpOutBuffer[..tmpOut];
      var adjacent := dict == Tmp;
      var size, ext := LocateDict(dst, dstPtr, adjacent);
      TmpDictGiven(out, before, adjacent, size, ext);
      decodedSize := DecoderApi.DecompressUsingDict(data, tmpOutBuffer, tmpOut, maxBlockSize, adjacent, size, ext,
                                                    content);
      if adjacent { assert tmpOutBuffer[..tmpOut] == before; }
    }

    lemma TmpDictGiven(out: Bytes, before: Bytes, adjacent: bool, size: nat, ext: Bytes)
      requires DictShape(|out|) && adjacent == (dict == Tmp) && size == |Window(DictBytes(out))|
      requires tmpOut <= tmpOutBuffer.Length && before == tmpOutBuffer[..tmpOut]
      requires (dict == Tmp ==> dictSize == tmpOut <= KB128)
      requires ext == if adjacent then [] else Window(DictBytes(out))
      ensures adjacent ==> size == tmpOut
      ensures DecoderApi.GivenDict(adjacent, before, size, ext) == Window(DictBytes(out))
    {
    }

    lemma FlushBegins(dictionary: Bytes, before: Bytes, content: Bytes, out: Bytes)
      requires DictShape(|out|) && tmpOut + |content| <= tmpOutBuffer.Length
      requires tmpOutBuffer[tmpOut..tmpOut + |content|] == content
      requires if info.linked then Recent(DictBytes(out), dictionary + before) else DictBytes(out) == dictionary
      requires info.linked ==> if dict == Tmp then dictSize == tmpOut else tmpOut == Min(dictSize, KB64)
      ensures FlushHistory(dictionary, before, content, 0, out)
    {
      hide Recent, Kept;
      var pre := dictionary + before;
      assert pre + content[..0] == pre;
      if info.linked {
        RecentEmpty(DictBytes(out), pre);
        if dict == Tmp {
          assert tmpOutBuffer[..][..tmpOut] == tmpOutBuffer[..tmpOut];
          assert tmpOutBuffer[..][tmpOut..tmpOut + |content|] == content;
          KeptFromRecent(tmpOutBuffer[..], tmpOut, pre, content);
        }
      }
    }

    /** `dstage_storeCBlock`. */
    method TurnStoreCBlock(dst: array<byte>, dstPtr0: nat, src: Bytes, srcPtr0: nat, ghost a: Call)
      returns (turn: Turn, dstPtr: nat, srcPtr: nat)
      requires Buffers() && Apart(dst) && a.src == src && Fed(a, srcPtr0) && Wrote(a, dst, dstPtr0)
      requires AtStoreCBlock(a.t, a.c0 + srcPtr0, a.p0 + dstPtr0, dst[..dstPtr0])
      modifies `stage, `tmpInSize, `tmpInTarget, `xxh, `frameRemainingSize, `dict, `dictSize, `block, tmpIn,
               tmpOutBuffer, dst,
               `tmpOut, `tmpOutSize, `tmpOutStart
      ensures turn.Fail? ==> !a.t.good
      ensures srcPtr0 <= srcPtr && (!turn.Fail? ==> Fed(a, srcPtr))
      ensures dstPtr0 <= dstPtr && Wrote(a, dst, dstPtr)
      ensures turn == Another ==>
        srcPtr > srcPtr0 && (AtGetBlockHeader(a.t, a.c0 + srcPtr, a.p0 + dstPtr, dst[..dstPtr])
        || AtFlushOut(a.t, a.c0 + srcPtr, a.p0 + dstPtr, dst[..dstPtr]))
      ensures turn.Pause? ==>
        turn.hint != 0 && srcPtr == |src| && AtStoreCBlock(a.t, a.c0 + srcPtr, a.p0 + dstPtr, dst[..dstPtr])
    {
      hide Reached, Start, Call.Wrote, ValidFrame, Feeds, AtGetBlockHeader, AtFlushOut, Compressed, BlockBytes,
           BlockStart, Track.Valid, Track.Emitted;
      dstPtr := dstPtr0;
      srcPtr := GatherCBlock(src, srcPtr0, a, a.p0 + dstPtr0, dst[..dstPtr0]);
      if tmpInSize < tmpInTarget {
        return Pause(tmpInTarget - tmpInSize + CrcSize() + BH_SIZE), dstPtr, srcPtr;
      }
      turn, dstPtr := DecodeBlock(tmpIn[..tmpInTarget], dst, dstPtr0, a, a.c0 + srcPtr);
    }

    /** The whole block has been gathered. */
    ghost predicate CBlockGathered(t: Track, c: nat)
      reads `tmpIn, tmpIn, `tmpInTarget, `info, `maxBlockSize, `block
    {
      && tmpInTarget <= tmpIn.Length
      && (t.good ==> InBlock(t, false) && tmpIn[..tmpInTarget] == BlockBytes(t) && c == Start(t.fr, block + 1, hash))
    }

    method GatherCBlock(src: Bytes, srcPtr0: nat, ghost a: Call, ghost p: nat, ghost out: Bytes) returns (srcPtr: nat)
      requires Buffers() && a.src == src && Fed(a, srcPtr0) && AtStoreCBlock(a.t, a.c0 + srcPtr0, p, out)
      modifies `tmpInSize, tmpIn
      ensures srcPtr0 <= srcPtr && Fed(a, srcPtr) && Compressed(a.t, p, out) && tmpInTarget <= tmpIn.Length
      ensures if tmpInSize < tmpInTarget then srcPtr == |src| && AtStoreCBlock(a.t, a.c0 + srcPtr, p, out)
        else srcPtr > srcPtr0 && CBlockGathered(a.t, a.c0 + srcPtr)
    {
      hide Feeds, Reached, Start, Before, Track.Emitted, Track.Valid, InfoIs, Ready, Body, Compressed, AtStoreCBlock,
           CBlockGathered;
      StoreParts(a.t, a.c0 + srcPtr0, p, out);
      CompressedFacts(a.t, p, out);
      ghost var F := if a.t.good then a.t.Emitted(hash) else [];
      ghost var base := if a.t.good then BlockStart(a.t) + BH_SIZE else 0;
      if a.t.good { BlockBytesAt(a.t); }
      tmpInSize, srcPtr := Gather(tmpIn, tmpInSize, tmpInTarget, src, srcPtr0, a.t.good, F, a.c0, base);
      StoreWhole(a.t, a.c0 + srcPtr, p, out);
    }

    lemma StoreParts(t: Track, c: nat, p: nat, out: Bytes)
      requires AtStoreCBlock(t, c, p, out)
      ensures stage == StoreCBlock && Compressed(t, p, out) && tmpInSize < tmpInTarget
      ensures t.good ==> c == BlockStart(t) + BH_SIZE + tmpInSize
      ensures t.good ==> Gathered(t.Emitted(hash), BlockStart(t) + BH_SIZE, tmpIn, tmpInSize)
    {
      hide Reached, Body;
    }

    lemma StoreWhole(t: Track, c: nat, p: nat, out: Bytes)
      requires stage == StoreCBlock && Compressed(t, p, out) && tmpInSize <= tmpInTarget <= tmpIn.Length
      requires t.good ==> InBlock(t, false) && c == BlockStart(t) + BH_SIZE + tmpInSize
      requires t.good ==> Gathered(t.Emitted(hash), BlockStart(t) + BH_SIZE, tmpIn, tmpInSize)
      ensures if tmpInSize < tmpInTarget then AtStoreCBlock(t, c, p, out) else CBlockGathered(t, c)
    {
      hide Reached, Body, Start, Before, Track.Emitted, BlockBytes, InfoIs;
      CompressedFacts(t, p, out);
      if t.good { BlockBytesAt(t); }
    }

    lemma CompressedFacts(t: Track, p: nat, out: Bytes)
      requires Compressed(t, p, out)
      ensures tmpInTarget <= tmpIn.Length
      ensures t.good ==> InBlock(t, false) && tmpInTarget == |t.fr.blocks[block].data| + CrcSize()
    {
      hide Reached, DictShape;
      ReadySizes();
    }

    lemma BlockBytesAt(t: Track)
      requires InBlock(t, false)
      ensures var s, b := BlockStart(t) + BH_SIZE, BlockBytes(t);
        && |b| == |t.fr.blocks[block].data| + CrcSize() && s + |b| == Start(t.fr, block + 1, hash) <= |t.Emitted(hash)|
        && t.Emitted(hash)[s..s + |b|] == b
    {
      hide Content, EmitFrame, ValidBlock, EmitBlocks;
      BlockAt(t.fr, block, hash);
    }

    // -------------------------------------------------------------- flushing

    /** The cases of `LZ4F_updateDict` for output that stands in the internal buffer: the history goes on there
        behind the block, or its end is first copied in front of the block. */
    method UpdateDictWithinTmp(n: nat, ghost good: bool, ghost pre: Bytes, ghost content: Bytes, ghost out: Bytes)
      requires Ready() && info.linked && DictShape(|out|) && FlushShape() && tmpOutStart + n <= tmpOutSize
      requires (dict == Tmp || dict == User)
      requires good ==>
        && |content| == tmpOutSize && tmpOutBuffer[tmpOut..tmpOut + |content|] == content
        && if dict == Tmp then Kept(tmpOutBuffer[..], tmpOut, pre, content)
           else Recent(DictBytes(out), pre + content[..tmpOutStart]) && RoomFor(tmpOut, pre, tmpOutSize)
      modifies `dict, `dictSize, tmpOutBuffer
      ensures dict == Tmp && dictSize == tmpOut + tmpOutStart + n
      ensures good ==> Kept(tmpOutBuffer[..], tmpOut, pre, content)
    {
      hide Recent, Kept, IsBlockSize;
      if dict == Tmp {
        dictSize := dictSize + n;
        return;
      }
      PreserveInFront(userDict, good, pre, content);
      dict := Tmp;
      dictSize := tmpOut + tmpOutStart + n;
    }

    /** `memcpy` of the `n` bytes of `d` before `end` into the internal buffer before `at`. */
    method CopyBefore(at: nat, d: Bytes, end: nat, n: nat)
      requires n <= at <= tmpOutBuffer.Length && n <= end <= |d|
      modifies tmpOutBuffer
      ensures SameEndAt(tmpOutBuffer[..], at, d, end, n) && tmpOutBuffer[..][at..] == old(tmpOutBuffer[..])[at..]
    {
      BlockDecoder.CopyExactly(tmpOutBuffer, at - n, d, end - n, n);
      assert tmpOutBuffer[..][at - n..at] == tmpOutBuffer[at - n..at];
    }

    static lemma TailSlice(a: Bytes, b: Bytes, at: nat, n: nat)
      requires at + n <= |a| == |b| && a[at..] == b[at..]
      ensures a[at..at + n] == b[at..at + n]
    {
      assert a[at..at + n] == a[at..][..n];
    }

    /** The end of the history, as far as the block still wants it, is copied in front of the block. */
    method PreserveInFront(d: Bytes, ghost good: bool, ghost pre: Bytes, ghost content: Bytes)
      requires tmpOutStart <= tmpOutSize && tmpOut + tmpOutSize <= tmpOutBuffer.Length
      requires CopySize() == 0 || |d| >= tmpOutStart + CopySize()
      requires good ==>
        && |content| == tmpOutSize && tmpOutBuffer[tmpOut..tmpOut + |content|] == content
        && Recent(d, pre + content[..tmpOutStart]) && RoomFor(tmpOut, pre, tmpOutSize)
      modifies tmpOutBuffer
      ensures good ==> Kept(tmpOutBuffer[..], tmpOut, pre, content)
    {
      hide Recent, Kept, SameEndAt, RoomFor;
      ghost var before, at, start := tmpOutBuffer[..], tmpOut, tmpOutStart;
      if good { assert before[at..at + |content|] == content; }
      var copySize := SizeToPreserve();
      if copySize > 0 {
        CopyBefore(tmpOut, d, |d| - tmpOutStart, copySize);
        if good { Preserved(before, tmpOutBuffer[..], at, pre, content, start, d, copySize); }
      } else if good {
        KeptCopied(before, at, pre, content, start, d, Max(|d| - start, 0), 0);
      }
    }

    method SizeToPreserve() returns (copySize: nat)
      ensures copySize == CopySize()
    {
      var preserveSize := tmpOut;
      copySize := if tmpOutSize > KB64 then 0 else KB64 - tmpOutSize;
      if copySize > preserveSize { copySize := preserveSize; }
    }

    static lemma Preserved(before: Bytes, now: Bytes, at: nat, pre: Bytes, content: Bytes, start: nat, d: Bytes,
                           copy: nat)
      requires at + |content| <= |before| == |now| && now[at..] == before[at..]
      requires before[at..at + |content|] == content && start <= |content| && start <= |d|
      requires Recent(d, pre + content[..start]) && RoomFor(at, pre, |content|)
      requires copy == Min(at, Wanted(|content|)) && SameEndAt(now, at, d, |d| - start, copy)
      ensures Kept(now, at, pre, content)
    {
      hide Recent, Kept, SameEndAt, RoomFor;
      TailSlice(before, now, at, |content|);
      KeptCopied(now, at, pre, content, start, d, |d| - start, copy);
    }

    /** `LZ4F_updateDict` for output flushed from the internal buffer. */
    method UpdateDictFlush(dst: array<byte>, dstPtr: nat, n: nat, ghost good: bool, ghost dictionary: Bytes,
                           ghost before: Bytes, ghost content: Bytes)
      requires Ready() && info.linked && Apart(dst) && dstPtr + n <= dst.Length && DictShape(dstPtr) && FlushShape()
      requires tmpOutStart + n <= tmpOutSize
      requires good ==>
        && |content| == tmpOutSize && FlushHistory(dictionary, before, content, tmpOutStart, dst[..dstPtr])
        && EndsWith(dictionary + before + content[..tmpOutStart], dst[..dstPtr])
        && dst[dstPtr..dstPtr + n] == content[tmpOutStart..tmpOutStart + n]
      modifies `dict, `dictSize, tmpOutBuffer
      ensures DictShape(dstPtr + n) && FlushDict(tmpOutStart + n)
      ensures good ==> FlushHistory(dictionary, before, content, tmpOutStart + n, dst[..dstPtr + n])
    {
      hide Recent, Kept, IsBlockSize, EndsWith, RoomFor, FlushHistory;
      ghost var pre, h := dictionary + before, [];
      if good {
        FlushParts(dictionary, before, content, tmpOutStart, dst[..dstPtr]);
        h := pre + content[..tmpOutStart];
        PartStep(pre, content, tmpOutStart, n);
        if dictSize == 0 { NothingBefore(dst[..dstPtr], pre, content[..tmpOutStart]); }
      }
      var done := UpdateDictInDst(dst, dstPtr, n, good, h);
      if !done {
        UpdateDictWithinTmp(n, good, pre, content, dst[..dstPtr]);
        if good { HistoryInTmp(dictionary, before, content, tmpOutStart + n, dst[..dstPtr + n]); }
      } else if good {
        HistoryOutside(dictionary, before, content, tmpOutStart + n, dst[..dstPtr + n]);
      }
    }

    lemma FlushParts(dictionary: Bytes, before: Bytes, content: Bytes, k: nat, out: Bytes)
      requires info.linked && FlushHistory(dictionary, before, content, k, out)
      ensures DictShape(|out|) && k <= |content| && RoomFor(tmpOut, dictionary + before, |content|)
      ensures tmpOut + |content| <= tmpOutBuffer.Length && tmpOutBuffer[tmpOut..tmpOut + |content|] == content
      ensures if dict == Tmp then Kept(tmpOutBuffer[..], tmpOut, dictionary + before, content)
        else Recent(DictBytes(out), dictionary + before + content[..k])
    {
      hide Kept, Recent, RoomFor;
    }

    lemma HistoryOutside(dictionary: Bytes, before: Bytes, content: Bytes, k: nat, out: Bytes)
      requires info.linked && dict != Tmp && DictShape(|out|) && k <= |content|
      requires RoomFor(tmpOut, dictionary + before, |content|)
      requires tmpOut + |content| <= tmpOutBuffer.Length && tmpOutBuffer[tmpOut..tmpOut + |content|] == content
      requires Recent(DictBytes(out), dictionary + before + content[..k])
      ensures FlushHistory(dictionary, before, content, k, out)
    {
      hide Kept, Recent, RoomFor;
    }

    lemma HistoryInTmp(dictionary: Bytes, before: Bytes, content: Bytes, k: nat, out: Bytes)
      requires info.linked && dict == Tmp && DictShape(|out|) && k <= |content|
      requires Kept(tmpOutBuffer[..], tmpOut, dictionary + before, content)
      ensures FlushHistory(dictionary, before, content, k, out)
    {
      hide Kept, Recent, RoomFor;
      KeptContent(tmpOutBuffer[..], tmpOut, dictionary + before, content);
    }

    /** An empty dictionary means that nothing has been produced. */
    lemma NothingBefore(out: Bytes, pre: Bytes, part: Bytes)
      requires DictShape(|out|) && dictSize == 0 && |part| == tmpOutStart && RoomFor(tmpOut, pre, tmpOutSize)
      requires dict == Tmp ==> dictSize == tmpOut + tmpOutStart
      requires dict != Tmp ==> Recent(DictBytes(out), pre + part)
      ensures pre + part == []
    {
      if dict != Tmp { RecentEmpty(DictBytes(out), pre + part); }
    }

    static lemma PartStep(pre: Bytes, content: Bytes, i: nat, n: nat)
      requires i + n <= |content|
      ensures pre + content[..i + n] == pre + content[..i] + content[i..i + n]
    {
      assert content[..i + n] == content[..i] + content[i..i + n];
    }

    static lemma KeptContent(tmp: Bytes, at: nat, pre: Bytes, content: Bytes)
      requires Kept(tmp, at, pre, content)
      ensures at + |content| <= |tmp| && tmp[at..at + |content|] == content && RoomFor(at, pre, |content|)
    {
    }

    /** The `n` bytes of the block that are flushed next. */
    lemma FlushFacts(a: Call, dstPtr: nat, n: nat, out: Bytes)
      requires a.t.good && a.t.Valid() && Flushing(a.t, a.p0 + dstPtr, out) && |out| == dstPtr && a.Wrote(out)
      requires tmpOutStart + n <= tmpOutSize
      ensures var content, b := a.t.fr.blocks[block].content, Before(a.t.fr, block);
        && EndsWith(a.t.dictionary + a.t.Content()[..b] + content[..tmpOutStart], out)
        && a.Wrote(out + content[tmpOutStart..tmpOutStart + n])
        && tmpOut + |content| <= tmpOutBuffer.Length
        && tmpOutBuffer[tmpOut + tmpOutStart..tmpOut + tmpOutStart + n] == content[tmpOutStart..tmpOutStart + n]
    {
      hide Content, Summed, Kept, ValidFrame, Start, RoomFor, EndsWith, Call.Wrote, Track.Content, Before, Recent,
           DictBytes, DictShape;
      var content := a.t.fr.blocks[block].content;
      ContentOfBlock(a.t, Before(a.t.fr, block));
      FlushSlices(a, out, content, Before(a.t.fr, block), tmpOutStart, n);
      SliceOfAt(tmpOutBuffer[..], tmpOut, content, tmpOutStart, n);
    }

    static lemma FlushSlices(a: Call, out: Bytes, content: Bytes, b: nat, s: nat, n: nat)
      requires b + |content| <= |a.t.Content()| && a.t.Content()[b..b + |content|] == content
      requires a.Wrote(out) && a.p0 + |out| == b + s && s + n <= |content|
      ensures var c := a.t.Content(); var pre := a.t.dictionary + c[..b];
        && EndsWith(pre + content[..s], out)
        && a.Wrote(out + content[s..s + n])
    {
      hide Track.Content, EndsWith;
      var c := a.t.Content();
      Prefixes(a.t.dictionary, c, b, content, s);
      SliceOfAt(c, b, content, s, n);
      SliceJoin(c, a.p0, b + s, b + s + n);
      LatestOutput(a, out, |out|);
      assert out[..|out|] == out;
    }

    static lemma Prefixes(d: Bytes, c: Bytes, b: nat, content: Bytes, s: nat)
      requires b + |content| <= |c| && c[b..b + |content|] == content && s <= |content|
      ensures d + c[..b] + content[..s] == d + c[..b + s]
    {
      assert content[..s] == c[b..b + s];
      assert c[..b + s] == c[..b] + c[b..b + s];
    }

    /** `dstage_flushOut`. */
    method TurnFlushOut(dst: array<byte>, dstPtr0: nat, ghost a: Call, ghost c: nat) returns (turn: Turn, dstPtr: nat)
      requires Apart(dst) && Wrote(a, dst, dstPtr0) && a.t.Valid() && AtFlushOut(a.t, c, a.p0 + dstPtr0, dst[..dstPtr0])
      modifies `stage, `dict, `dictSize, `tmpOutStart, `block, tmpOutBuffer, dst
      ensures dstPtr0 <= dstPtr && Wrote(a, dst, dstPtr)
      ensures match turn
        case Fail(_) => false
        case Another => AtGetBlockHeader(a.t, c, a.p0 + dstPtr, dst[..dstPtr])
        case Pause(hint) => hint != 0 && dstPtr == dst.Length && AtFlushOut(a.t, c, a.p0 + dstPtr, dst[..dstPtr])
    {
      hide Ready, Start, Before, Call.Wrote, Track.Valid, InfoIs, Summed, FlushHistory, FlushDict, EndsWith,
           Track.Content, Reached;
      var sizeToCopy := Min(tmpOutSize - tmpOutStart, dst.Length - dstPtr0);
      dstPtr := dstPtr0 + sizeToCopy;
      if a.t.good { FlushFacts(a, dstPtr0, sizeToCopy, dst[..dstPtr0]); }
      CopyOut(dst, dstPtr0, sizeToCopy);
      Flushed(dst, dstPtr0, sizeToCopy, a, c);
      turn := Pause(BH_SIZE);
      if tmpOutStart == tmpOutSize {
        FinishFlush(a.t, c, a.p0 + dstPtr, dst[..dstPtr]);
        turn := Another;
      }
    }

    method FinishFlush(ghost t: Track, ghost c: nat, ghost p: nat, ghost out: Bytes)
      requires t.Valid() && AtFlushOut(t, c, p, out) && tmpOutStart == tmpOutSize
      modifies `stage, `block
      ensures AtGetBlockHeader(t, c, p, out)
    {
      hide Ready, Start, Before, Track.Valid, InfoIs, Summed, FlushHistory, FlushDict, Track.Content, Reached;
      if t.good { FlushDone(t, p, out); }
      ToNextBlock(t, c, p, out);
    }

    method CopyOut(dst: array<byte>, dstPtr: nat, n: nat)
      requires Apart(dst) && dstPtr + n <= dst.Length && tmpOut + tmpOutStart + n <= tmpOutBuffer.Length
      modifies dst
      ensures dst[..dstPtr] == old(dst[..dstPtr])
      ensures var x := tmpOutBuffer[tmpOut + tmpOutStart..tmpOut + tmpOutStart + n];
        dst[dstPtr..dstPtr + n] == x && dst[..dstPtr + n] == old(dst[..dstPtr]) + x
    {
      var from := tmpOut + tmpOutStart;
      BlockDecoder.CopyExactly(dst, dstPtr, tmpOutBuffer[from..from + n], 0, n);
    }

    /** The history after some bytes have been flushed. */
    method Flushed(dst: array<byte>, dstPtr: nat, n: nat, ghost a: Call, ghost c: nat)
      requires Apart(dst) && dstPtr + n <= dst.Length && AtFlushOut(a.t, c, a.p0 + dstPtr, dst[..dstPtr])
      requires tmpOutStart + n <= tmpOutSize
      requires a.t.good ==>
        var content, b := a.t.fr.blocks[block].content, Before(a.t.fr, block);
        && EndsWith(a.t.dictionary + a.t.Content()[..b] + content[..tmpOutStart], dst[..dstPtr])
        && dst[dstPtr..dstPtr + n] == content[tmpOutStart..tmpOutStart + n]
      modifies `dict, `dictSize, `tmpOutStart, tmpOutBuffer
      ensures AtFlushOut(a.t, c, a.p0 + dstPtr + n, dst[..dstPtr + n]) && tmpOutStart == old(tmpOutStart) + n
    {
      hide Ready, Start, Track.Valid, InfoIs, Summed, EndsWith, Track.Content, Before, FlushHistory, FlushDict;
      ghost var t := a.t;
      ghost var content: Bytes := if t.good then t.fr.blocks[block].content else [];
      ghost var before: Bytes := if t.good then t.Content()[..Before(t.fr, block)] else [];
      if info.linked {
        UpdateDictFlush(dst, dstPtr, n, t.good, t.dictionary, before, content);
      } else if t.good {
        UnlinkedHistory(t.dictionary, before, content, tmpOutStart, tmpOutStart + n, dst[..dstPtr], dst[..dstPtr + n]);
      }
      tmpOutStart := tmpOutStart + n;
    }

    lemma UnlinkedHistory(dictionary: Bytes, before: Bytes, content: Bytes, k: nat, k': nat, out: Bytes, out': Bytes)
      requires !info.linked && FlushHistory(dictionary, before, content, k, out) && k' <= |content|
      ensures DictShape(|out'|) && FlushHistory(dictionary, before, content, k', out')
    {
    }

    /** Everything flushed: the next block. */
    lemma FlushDone(t: Track, p: nat, out: Bytes)
      requires t.good && t.Valid() && FlushShape() && Flushing(t, p, out) && tmpOutStart == tmpOutSize
      ensures block + 1 <= |t.fr.blocks| && p == Before(t.fr, block + 1) && Reached(t, p, out)
    {
      hide Content, EmitFrame, Encodes, EmitBlocks, FlushHistory, Summed, HistoryOk, ValidFrame;
      ContentAt(t.fr, block);
      HistoryAfterBlock(t.dictionary, t.Content(), Before(t.fr, block), t.fr.blocks[block].content, out);
    }

    lemma HistoryAfterBlock(dictionary: Bytes, all: Bytes, b: nat, content: Bytes, out: Bytes)
      requires b + |content| <= |all| && all[b..b + |content|] == content
      requires FlushHistory(dictionary, all[..b], content, |content|, out) && (info.linked ==> FlushDict(|content|))
      ensures HistoryOk(dictionary, all[..b + |content|], out)
    {
      hide Recent, Kept, RoomFor;
      Prefixes(dictionary, all, b, content, |content|);
      assert content[..|content|] == content;
      if info.linked && dict == Tmp {
        KeptRecent(tmpOutBuffer[..], tmpOut, dictionary + all[..b], content);
        assert tmpOutBuffer[..][..dictSize] == tmpOutBuffer[..dictSize];
      }
    }
  
    // -------------------------------------------------------------- the end of the frame

    lemma SuffixAt(t: Track)
      requires InBody(t) && block == |t.fr.blocks|
      ensures |t.Emitted(hash)| == BlockStart(t) + BH_SIZE + if info.contentChecksum then BF_SIZE else 0
      ensures info.contentChecksum ==> At(t.Emitted(hash), BlockStart(t) + BH_SIZE, LE32(hash(t.Content())))
    {
      hide LE32, EmitFrame, Content, EmitBlocks, ValidBlock;
      EndAt(t.fr, hash);
    }

    /** `dstage_getSuffix`. */
    method TurnGetSuffix(src: Bytes, srcPtr0: nat, ghost a: Call, ghost p: nat) returns (turn: Turn, srcPtr: nat)
      requires a.src == src && Fed(a, srcPtr0) && AtGetSuffix(a.t, a.c0 + srcPtr0, p)
      modifies `stage, `dict, `dictSize, `skipChecksum, `tmpInSize
      ensures turn.Fail? ==> !a.t.good
      ensures srcPtr0 <= srcPtr && (!turn.Fail? ==> Fed(a, srcPtr))
      ensures turn == Another ==> AtStoreSuffix(a.t, a.c0 + srcPtr, p)
      ensures turn.Pause? ==> turn.hint == 0 && Finished(a.t, a.c0 + srcPtr, p)
    {
      hide Feeds, Start, LE32, ReadLE32, Track.Emitted, Track.Valid, InfoIs, Ready, Track.Content;
      srcPtr := srcPtr0;
      if a.t.good {
        SuffixAt(a.t);
        assert a.t.Content()[..p] == a.t.Content();
      }
      if frameRemainingSize != 0 { return Fail(FrameSizeWrong), srcPtr; }
      if !info.contentChecksum {
        Reset();
        return Pause(0), srcPtr;
      }
      if |src| - srcPtr < 4 {
        tmpInSize := 0;
        stage := StoreSuffix;
        return Another, srcPtr;
      }
      if a.t.good {
        FeedAt(a.t.Emitted(hash), a.c0, src, srcPtr, LE32(hash(a.t.Content())));
        ReadBack32(src, srcPtr, hash(a.t.Content()));
      }
      srcPtr := srcPtr + 4;
      turn := CheckSuffix(ReadLE32(src, srcPtr - 4));
    }

    /** `dstage_storeSuffix`. */
    method TurnStoreSuffix(src: Bytes, srcPtr0: nat, ghost a: Call, ghost p: nat) returns (turn: Turn, srcPtr: nat)
      requires a.src == src && Fed(a, srcPtr0) && AtStoreSuffix(a.t, a.c0 + srcPtr0, p)
      modifies `stage, `dict, `dictSize, `skipChecksum, `tmpInSize, tmpIn
      ensures turn.Fail? ==> !a.t.good
      ensures srcPtr0 <= srcPtr && (!turn.Fail? ==> Fed(a, srcPtr)) && turn != Another
      ensures turn.Pause? ==>
        if turn.hint == 0 then Finished(a.t, a.c0 + srcPtr, p)
        else srcPtr == |src| && AtStoreSuffix(a.t, a.c0 + srcPtr, p)
    {
      hide Feeds, Start, LE32, ReadLE32, Track.Emitted, Track.Valid, InfoIs, Track.Content;
      ReadySizes();
      hide Ready;
      ghost var F := if a.t.good then a.t.Emitted(hash) else [];
      ghost var base := if a.t.good then BlockStart(a.t) + BH_SIZE else 0;
      if a.t.good {
        SuffixAt(a.t);
        assert a.t.Content()[..p] == a.t.Content();
      }
      tmpInSize, srcPtr := Gather(tmpIn, tmpInSize, 4, src, srcPtr0, a.t.good, F, a.c0, base);
      if tmpInSize < 4 { return Pause(4 - tmpInSize), srcPtr; }
      var word := tmpIn[..4];
      if a.t.good { GatheredWord(F, base, word, hash(a.t.Content())); }
      turn := CheckSuffix(ReadLE32(word, 0));
    }

    method CheckSuffix(crc: U32) returns (turn: Turn)
      modifies `stage, `dict, `dictSize, `skipChecksum
      ensures
        if old(skipChecksum) || crc == hash(xxh) then
          turn == Pause(0) && stage == GetFrameHeader && dict == Nowhere && dictSize == 0 && !skipChecksum
        else turn.Fail?
    {
      if !skipChecksum && crc != hash(xxh) { return Fail(ContentChecksumInvalid); }
      Reset();
      turn := Pause(0);
    }

    // -------------------------------------------------------------- skippable frames

    lemma SFrameSizeAt(t: Track)
      requires t.good && t.Valid() && t.fr.SkippableFrame?
      ensures |t.fr.payload| < 0x1_0000_0000 && |t.Emitted(hash)| == 8 + |t.fr.payload|
      ensures At(t.Emitted(hash), 4, LE32(|t.fr.payload|))
    {
      hide LE32, EmitFrame;
      SkippableAt(t.fr, hash);
    }

    /** `dstage_getSFrameSize`. */
    method TurnGetSFrameSize(src: Bytes, srcPtr0: nat, ghost a: Call, ghost p: nat) returns (turn: Turn, srcPtr: nat)
      requires Buffers() && a.src == src && Fed(a, srcPtr0) && AtGetSFrameSize(a.t, a.c0 + srcPtr0, p)
      modifies `stage, `tmpInSize, `tmpInTarget, `info
      ensures srcPtr0 <= srcPtr && Fed(a, srcPtr) && turn == Another
      ensures AtSkipSkippable(a.t, a.c0 + srcPtr, p) || AtStoreSFrameSize(a.t, a.c0 + srcPtr, p)
    {
      hide Feeds, LE32, ReadLE32, Track.Emitted, ValidFrame;
      srcPtr := srcPtr0;
      turn := Another;
      if a.t.good { SFrameSizeAt(a.t); }
      if |src| - srcPtr >= 4 {
        if a.t.good {
          FeedAt(a.t.Emitted(hash), a.c0, src, srcPtr, LE32(|a.t.fr.payload|));
          ReadBack32(src, srcPtr, |a.t.fr.payload|);
        }
        srcPtr := srcPtr + 4;
        DecodeSFrameSize(ReadLE32(src, srcPtr - 4));
      } else {
        tmpInSize, tmpInTarget, stage := 4, 8, StoreSFrameSize;
      }
    }

    method DecodeSFrameSize(sFrameSize: U32)
      modifies `stage, `tmpInTarget, `info
      ensures stage == SkipSkippable && tmpInTarget == sFrameSize
    {
      info := info.(contentSize := sFrameSize);
      tmpInTarget := sFrameSize;
      stage := SkipSkippable;
    }

    /** `dstage_storeSFrameSize`: only the four bytes of the size are gathered, after the place of the magic number. */
    method TurnStoreSFrameSize(src: Bytes, srcPtr0: nat, ghost a: Call, ghost p: nat) returns (turn: Turn, srcPtr: nat)
      requires Buffers() && a.src == src && Fed(a, srcPtr0) && AtStoreSFrameSize(a.t, a.c0 + srcPtr0, p)
      modifies `stage, `tmpInSize, `tmpInTarget, `info, header
      ensures srcPtr0 <= srcPtr && Fed(a, srcPtr) && !turn.Fail?
      ensures turn == Another ==> srcPtr > srcPtr0 && AtSkipSkippable(a.t, a.c0 + srcPtr, p)
      ensures turn.Pause? ==> turn.hint != 0 && srcPtr == |src| && AtStoreSFrameSize(a.t, a.c0 + srcPtr, p)
    {
      hide Feeds, LE32, ReadLE32, Track.Emitted, ValidFrame;
      if a.t.good { SFrameSizeAt(a.t); }
      var sizeToCopy := Min(tmpInTarget - tmpInSize, |src| - srcPtr0);
      ghost var got := header[4..tmpInSize];
      srcPtr := srcPtr0 + sizeToCopy;
      BlockDecoder.CopyExactly(header, tmpInSize, src, srcPtr0, sizeToCopy);
      tmpInSize := tmpInSize + sizeToCopy;
      assert header[4..tmpInSize] == got + src[srcPtr0..srcPtr];
      if a.t.good {
        FeedMore(a.t.Emitted(hash), a.c0, src, srcPtr0, srcPtr, 4, got, header[4..tmpInSize]);
      }
      if tmpInSize < tmpInTarget { return Pause(tmpInTarget - tmpInSize), srcPtr; }
      var word := header[4..8];
      if a.t.good { GatheredWord(a.t.Emitted(hash), 4, word, |a.t.fr.payload|); }
      DecodeSFrameSize(ReadLE32(word, 0));
      turn := Another;
    }

    /** `dstage_skipSkippable`. */
    method TurnSkipSkippable(src: Bytes, srcPtr0: nat, ghost a: Call, ghost p: nat) returns (turn: Turn, srcPtr: nat)
      requires a.src == src && Fed(a, srcPtr0) && AtSkipSkippable(a.t, a.c0 + srcPtr0, p)
      modifies `stage, `dict, `dictSize, `tmpInTarget, `skipChecksum
      ensures srcPtr0 <= srcPtr && Fed(a, srcPtr) && turn == Pause(tmpInTarget)
      ensures if turn.hint == 0 then Finished(a.t, a.c0 + srcPtr, p)
        else srcPtr == |src| && AtSkipSkippable(a.t, a.c0 + srcPtr, p)
    {
      hide Feeds, Track.Emitted, ValidFrame;
      var skipSize := Min(tmpInTarget, |src| - srcPtr0);
      srcPtr := srcPtr0 + skipSize;
      tmpInTarget := tmpInTarget - skipSize;
      turn := Pause(tmpInTarget);
      if tmpInTarget == 0 { Reset(); }
    }

    // -------------------------------------------------------------- a whole call

    /** How a turn ends. Following a frame it never fails, and it stops only at the end of the frame, for lack of
        input, or because the destination is full. */
    ghost predicate After(turn: Turn, a: Call, dst: array<byte>, dstPtr: nat, srcPtr: nat)
      reads this, header, tmpIn, tmpOutBuffer, dst
    {
      && Apart(dst) && Buffers()
      && match turn
         case Fail(_) => !a.t.good
         case Another => Here(a, dst, dstPtr, srcPtr)
         case Pause(hint) =>
           && Fed(a, srcPtr) && Wrote(a, dst, dstPtr)
           && if hint == 0 then Finished(a.t, a.c0 + srcPtr, a.p0 + dstPtr)
              else Here(a, dst, dstPtr, srcPtr) && CanStop() && (srcPtr == |a.src| || dstPtr == dst.Length)
    }

    /** The stages in which the decoder may wait for the next call. */
    predicate CanStop()
      reads `stage, `tmpInTarget
    {
      stage != Init && stage != GetSuffix && stage != GetSFrameSize && (stage == SkipSkippable ==> tmpInTarget > 0)
    }

    /** Whether the stage is one whose history must outlive the call. */
    predicate KeepsHistory()
      reads `stage
    {
      stage == Init || stage == GetBlockHeader || stage == StoreBlockHeader || stage == CopyDirect
      || stage == GetBlockChecksum
      || stage == GetCBlock || stage == StoreCBlock || stage == FlushOut
    }
  
    lemma StageOf(t: Track, c: nat, p: nat, out: Bytes)
      requires t.Valid()
      ensures AtGetFrameHeader(t, c, p) ==> stage == GetFrameHeader
      ensures AtStoreFrameHeader(t, c, p) ==> stage == StoreFrameHeader
      ensures AtInit(t, c, p) ==> stage == Init
      ensures AtGetBlockHeader(t, c, p, out) ==> stage == GetBlockHeader
      ensures AtStoreBlockHeader(t, c, p, out) ==> stage == StoreBlockHeader
      ensures AtCopyDirect(t, c, p, out) ==> stage == CopyDirect
      ensures AtGetBlockChecksum(t, c, p, out) ==> stage == GetBlockChecksum
      ensures AtGetCBlock(t, c, p, out) ==> stage == GetCBlock
      ensures AtStoreCBlock(t, c, p, out) ==> stage == StoreCBlock
      ensures AtFlushOut(t, c, p, out) ==> stage == FlushOut
      ensures AtGetSuffix(t, c, p) ==> stage == GetSuffix
      ensures AtStoreSuffix(t, c, p) ==> stage == StoreSuffix
      ensures AtGetSFrameSize(t, c, p) ==> stage == GetSFrameSize
      ensures AtStoreSFrameSize(t, c, p) ==> stage == StoreSFrameSize
      ensures AtSkipSkippable(t, c, p) ==> stage == SkipSkippable
    {
      hide NoOutputYet, Waiting, InfoIs, IsBlockSize, Gathered, Body, Boundary, BlockStart, InBlock, Reached,
           Compressed, FlushShape, Flushing, Ended, Skipping, Ready, ValidFrame, Track.Emitted, IsSkippable;
    }

    /** A turn of one of the stages before the body, or of a skippable frame. */
    method StepHead(dst: array<byte>, dstPtr: nat, src: Bytes, srcPtr0: nat, ghost a: Call)
      returns (turn: Turn, srcPtr: nat)
      requires a.src == src && Here(a, dst, dstPtr, srcPtr0)
      requires stage == GetFrameHeader || stage == StoreFrameHeader || stage == Init || stage == GetSFrameSize
        || stage == StoreSFrameSize || stage == SkipSkippable
      modifies this, header
      ensures After(turn, a, dst, dstPtr, srcPtr) && srcPtr0 <= srcPtr
      ensures (tmpIn == old(tmpIn) || fresh(tmpIn)) && (tmpOutBuffer == old(tmpOutBuffer) || fresh(tmpOutBuffer))
      ensures turn == Another ==> srcPtr > srcPtr0 || Rank(stage) < Rank(old(stage))
    {
      hide AtGetFrameHeader, AtStoreFrameHeader, AtInit, AtGetBlockHeader, AtGetSFrameSize, AtStoreSFrameSize,
           AtSkipSkippable, AtStoreBlockHeader, AtCopyDirect, AtGetBlockChecksum, AtGetCBlock, AtStoreCBlock,
           AtFlushOut, AtGetSuffix, AtStoreSuffix, Feeds, Track.Emitted, ValidFrame, Call.Wrote, Finished;
      ghost var p, out := a.p0 + dstPtr, dst[..dstPtr];
      AtStageCase(a.t, a.c0 + srcPtr0, p, out);
      srcPtr := srcPtr0;
      match stage {
        case GetFrameHeader => turn, srcPtr := TurnGetFrameHeader(src, srcPtr0, a, p, out);
        case StoreFrameHeader => turn, srcPtr := TurnStoreFrameHeader(src, srcPtr0, a, p, out);
        case Init =>
          TurnInit(a.t, a.c0 + srcPtr0, p, out);
          turn := Another;
        case GetSFrameSize => turn, srcPtr := TurnGetSFrameSize(src, srcPtr0, a, p);
        case StoreSFrameSize => turn, srcPtr := TurnStoreSFrameSize(src, srcPtr0, a, p);
        case SkipSkippable => turn, srcPtr := TurnSkipSkippable(src, srcPtr0, a, p);
      }
      StageOf(a.t, a.c0 + srcPtr, p, out);
      if turn == Another && srcPtr == srcPtr0 { RankDrops(old(stage), stage); }
    }

    static lemma RankDrops(s: Stage, s': Stage)
      requires match s
        case GetFrameHeader => s' == StoreFrameHeader
        case Init => s' == GetBlockHeader
        case GetSFrameSize => s' == SkipSkippable || s' == StoreSFrameSize
        case _ => false
      ensures Rank(s') < Rank(s)
    {
    }
  
    /** A turn of one of the stages of the body, or of the suffix, that produce no output. */
    method StepControl(dst: array<byte>, dstPtr: nat, src: Bytes, srcPtr0: nat, ghost a: Call)
      returns (turn: Turn, srcPtr: nat)
      requires a.src == src && Here(a, dst, dstPtr, srcPtr0)
      requires stage == GetBlockHeader || stage == StoreBlockHeader || stage == GetBlockChecksum
        || stage == GetSuffix || stage == StoreSuffix
      modifies this, header, tmpIn
      ensures tmpIn == old(tmpIn) && tmpOutBuffer == old(tmpOutBuffer)
      ensures After(turn, a, dst, dstPtr, srcPtr) && srcPtr0 <= srcPtr
      ensures turn == Another ==> srcPtr > srcPtr0 || Rank(stage) < Rank(old(stage))
    {
      hide AtGetFrameHeader, AtStoreFrameHeader, AtInit, AtGetBlockHeader, AtGetSFrameSize, AtStoreSFrameSize,
           AtSkipSkippable, AtStoreBlockHeader, AtCopyDirect, AtGetBlockChecksum, AtGetCBlock, AtStoreCBlock,
           AtFlushOut, AtGetSuffix, AtStoreSuffix, Feeds, Track.Emitted, ValidFrame, Call.Wrote, Finished;
      ghost var p, out := a.p0 + dstPtr, dst[..dstPtr];
      AtStageCase(a.t, a.c0 + srcPtr0, p, out);
      match stage {
        case GetBlockHeader => turn, srcPtr := TurnGetBlockHeader(src, srcPtr0, dstPtr == dst.Length, a, p, out);
        case StoreBlockHeader => turn, srcPtr := TurnStoreBlockHeader(src, srcPtr0, dstPtr == dst.Length, a, p, out);
        case GetBlockChecksum => turn, srcPtr := TurnGetBlockChecksum(src, srcPtr0, a, p, out);
        case GetSuffix => turn, srcPtr := TurnGetSuffix(src, srcPtr0, a, p);
        case StoreSuffix => turn, srcPtr := TurnStoreSuffix(src, srcPtr0, a, p);
      }
      StageOf(a.t, a.c0 + srcPtr, p, out);
      if turn == Another && srcPtr == srcPtr0 { BodyRankDrops(old(stage), stage); }
    }

    /** A turn of one of the stages that produce output. */
    method StepOutput(dst: array<byte>, dstPtr0: nat, src: Bytes, srcPtr0: nat, ghost a: Call)
      returns (turn: Turn, dstPtr: nat, srcPtr: nat)
      requires a.src == src && Here(a, dst, dstPtr0, srcPtr0)
      requires stage == CopyDirect || stage == GetCBlock || stage == StoreCBlock || stage == FlushOut
      modifies this, header, tmpIn, tmpOutBuffer, dst
      ensures tmpIn == old(tmpIn) && tmpOutBuffer == old(tmpOutBuffer)
      ensures After(turn, a, dst, dstPtr, srcPtr) && srcPtr0 <= srcPtr && dstPtr0 <= dstPtr
      ensures turn == Another ==> srcPtr > srcPtr0 || Rank(stage) < Rank(old(stage))
    {
      hide AtGetFrameHeader, AtStoreFrameHeader, AtInit, AtGetBlockHeader, AtGetSFrameSize, AtStoreSFrameSize,
           AtSkipSkippable, AtStoreBlockHeader, AtCopyDirect, AtGetBlockChecksum, AtGetCBlock, AtStoreCBlock,
           AtFlushOut, AtGetSuffix, AtStoreSuffix, Feeds, Track.Emitted, ValidFrame, Call.Wrote, Finished;
      AtStageCase(a.t, a.c0 + srcPtr0, a.p0 + dstPtr0, dst[..dstPtr0]);
      srcPtr := srcPtr0;
      match stage {
        case CopyDirect => turn, dstPtr, srcPtr := TurnCopyDirect(dst, dstPtr0, src, srcPtr0, a);
        case GetCBlock => turn, dstPtr, srcPtr := TurnGetCBlock(dst, dstPtr0, src, srcPtr0, a);
        case StoreCBlock => turn, dstPtr, srcPtr := TurnStoreCBlock(dst, dstPtr0, src, srcPtr0, a);
        case FlushOut => turn, dstPtr := TurnFlushOut(dst, dstPtr0, a, a.c0 + srcPtr0);
      }
      StageOf(a.t, a.c0 + srcPtr, a.p0 + dstPtr, dst[..dstPtr]);
      if turn == Another && srcPtr == srcPtr0 { BodyRankDrops(old(stage), stage); }
    }

    static lemma BodyRankDrops(s: Stage, s': Stage)
      requires match s
        case GetBlockHeader => s' == StoreBlockHeader
        case CopyDirect => s' == GetBlockChecksum || s' == GetBlockHeader
        case GetCBlock => s' == StoreCBlock || s' == GetBlockHeader || s' == FlushOut
        case FlushOut => s' == GetBlockHeader
        case GetSuffix => s' == StoreSuffix
        case _ => false
      ensures Rank(s') < Rank(s)
    {
    }
  
    // -------------------------------------------------------------- keeping history between calls

    /** The stages of the body in which no decoded block is waiting. */
    predicate InBodyStage()
      reads `stage
    {
      stage == GetBlockHeader || stage == StoreBlockHeader || stage == CopyDirect || stage == GetBlockChecksum
      || stage == GetCBlock || stage == StoreCBlock
    }

    /** The part of such a stage that has to do with history. */
    ghost predicate Remembers(t: Track, p: nat, out: Bytes)
      reads `info, `xxh, `skipChecksum, `frameRemainingSize, `userDict, `dict, `dictSize, `tmpOutBuffer, tmpOutBuffer,
            `tmpIn, `maxBufferSize, `maxBlockSize, `tmpOut
    {
      Body(out) && (t.good ==> Reached(t, p, out))
    }

    /** The part that has not. */
    ghost predicate Position(t: Track, c: nat, p: nat)
      requires InBodyStage()
      reads `stage, `info, `maxBlockSize, `block, `tmpInSize, `tmpInTarget, `blockXxh, `skipChecksum, `tmpIn,
            tmpIn, header
    {
      match stage
      case GetBlockHeader => t.good ==> InBody(t) && p == Before(t.fr, block) && c == BlockStart(t)
      case StoreBlockHeader =>
        && tmpInSize < BH_SIZE
        && (t.good ==>
              InBody(t) && p == Before(t.fr, block) && c == BlockStart(t) + tmpInSize
              && Gathered(t.Emitted(hash), BlockStart(t), tmpIn, tmpInSize))
      case CopyDirect =>
        && tmpInTarget <= maxBlockSize
        && (t.good ==>
              && InBlock(t, true) && tmpInTarget <= |t.fr.blocks[block].data|
              && var done := |t.fr.blocks[block].data| - tmpInTarget;
              && c == BlockStart(t) + BH_SIZE + done && p == Before(t.fr, block) + done
              && (info.blockChecksum && !skipChecksum ==> blockXxh == t.fr.blocks[block].data[..done]))
      case GetBlockChecksum =>
        && tmpInSize < BF_SIZE
        && (t.good ==>
              && InBlock(t, true) && info.blockChecksum
              && var data := t.fr.blocks[block].data;
              && c == BlockStart(t) + BH_SIZE + |data| + tmpInSize
              && Gathered(t.Emitted(hash), BlockStart(t) + BH_SIZE + |data|, header, tmpInSize)
              && p == Before(t.fr, block) + |data| && (!skipChecksum ==> blockXxh == data))
      case GetCBlock => CompressedNext(t, p) && (t.good ==> c == BlockStart(t) + BH_SIZE)
      case StoreCBlock =>
        && CompressedNext(t, p) && tmpInSize < tmpInTarget
        && (t.good ==>
              c == BlockStart(t) + BH_SIZE + tmpInSize && Gathered(t.Emitted(hash), BlockStart(t) + BH_SIZE, tmpIn,
                                                                   tmpInSize))
    }

    ghost predicate CompressedNext(t: Track, p: nat)
      reads `info, `maxBlockSize, `block, `tmpInTarget
    {
      && CrcSize() <= tmpInTarget <= maxBlockSize + CrcSize()
      && (t.good ==>
            InBlock(t, false) && tmpInTarget == |t.fr.blocks[block].data| + CrcSize() && p == Before(t.fr, block))
    }

    lemma StageParts(t: Track, c: nat, p: nat, out: Bytes)
      requires t.Valid() && InBodyStage() && AtStage(t, c, p, out)
      ensures Position(t, c, p) && Remembers(t, p, out)
    {
      hide Start, Before, Track.Emitted, Gathered, Summed, HistoryOk, ValidFrame, InfoIs, NoOutputYet, Waiting,
           Flushing, Ended, Ready, DictShape, AtGetFrameHeader, AtStoreFrameHeader, AtInit, AtFlushOut, AtGetSuffix,
           AtStoreSuffix, AtGetSFrameSize, AtStoreSFrameSize, AtSkipSkippable;
      AtStageCase(t, c, p, out);
      hide AtStage;
    }

    lemma StageWhole(t: Track, c: nat, p: nat, out: Bytes)
      requires t.Valid() && InBodyStage() && Position(t, c, p) && Remembers(t, p, out)
      ensures AtStage(t, c, p, out)
    {
      hide Start, Before, Track.Emitted, Gathered, Summed, HistoryOk, ValidFrame, InfoIs, Ready, DictShape,
           AtGetFrameHeader, AtStoreFrameHeader, AtInit, AtFlushOut, AtGetSuffix, AtStoreSuffix, AtGetSFrameSize,
           AtStoreSFrameSize, AtSkipSkippable;
    }
  
    /** History that does not lie in the destination does not depend on it. */
    lemma OutIrrelevant(t: Track, c: nat, p: nat, out: Bytes)
      requires t.Valid() && AtStage(t, c, p, out) && stage != Init
      requires InBodyStage() || stage == FlushOut ==> !info.linked || !dict.Dst?
      ensures AtStage(t, c, p, [])
    {
      if InBodyStage() {
        StageParts(t, c, p, out);
        RemembersAnywhere(t, p, out);
        StageWhole(t, c, p, []);
      } else {
        OutIrrelevantElsewhere(t, c, p, out);
      }
    }

    lemma RemembersAnywhere(t: Track, p: nat, out: Bytes)
      requires Remembers(t, p, out) && (!info.linked || !dict.Dst?)
      ensures Remembers(t, p, [])
    {
      hide Ready, Summed, Recent;
    }

    lemma OutIrrelevantElsewhere(t: Track, c: nat, p: nat, out: Bytes)
      requires t.Valid() && AtStage(t, c, p, out) && !InBodyStage() && stage != Init
      requires stage == FlushOut ==> !info.linked || !dict.Dst?
      ensures AtStage(t, c, p, [])
    {
      hide AtGetFrameHeader, AtStoreFrameHeader, AtInit, AtGetBlockHeader, AtGetSFrameSize, AtStoreSFrameSize,
           AtSkipSkippable, AtStoreBlockHeader, AtCopyDirect, AtGetBlockChecksum, AtGetCBlock, AtStoreCBlock,
           AtGetSuffix, AtStoreSuffix;
      AtStageCase(t, c, p, out);
      if stage == FlushOut {
        FlushAnywhere(t, c, p, out);
      }
    }

    lemma FlushAnywhere(t: Track, c: nat, p: nat, out: Bytes)
      requires AtFlushOut(t, c, p, out) && (!info.linked || !dict.Dst?)
      ensures AtFlushOut(t, c, p, [])
    {
      hide Ready, Summed, Recent, Kept, RoomFor, FlushShape, InBlock, Start, Before, Track.Content;
    }

    /** History in the destination, or with the caller, is copied into the internal buffer before the call returns. */
    method PreserveHistory(dst: array<byte>, dstPtr: nat, ghost t: Track, ghost c: nat, ghost p: nat)
      requires Apart(dst) && dstPtr <= dst.Length && t.Valid() && AtStage(t, c, p, dst[..dstPtr]) && stage != Init
      modifies `dict, `dictSize, `tmpOut, tmpOutBuffer
      ensures AtStage(t, c, p, [])
    {
      hide AtStage;
      ghost var out := dst[..dstPtr];
      if info.linked && dict != Tmp && dict != Nowhere && KeepsHistory() {
        if stage == FlushOut {
          StageFlush(t, c, p, out);
          PreserveFlush(dst, dstPtr, t, c, p);
          StageFlushed(t, c, p, []);
        } else {
          StageParts(t, c, p, out);
          PreserveEnd(dst, dstPtr, t, p);
          StageWhole(t, c, p, []);
        }
      } else {
        OutIrrelevant(t, c, p, out);
      }
    }

    lemma StageFlush(t: Track, c: nat, p: nat, out: Bytes)
      requires t.Valid() && AtStage(t, c, p, out) && stage == FlushOut
      ensures AtFlushOut(t, c, p, out)
    {
      hide AtStage;
      AtStageCase(t, c, p, out);
    }

    lemma StageFlushed(t: Track, c: nat, p: nat, out: Bytes)
      requires t.Valid() && AtFlushOut(t, c, p, out)
      ensures AtStage(t, c, p, out)
    {
      hide AtGetFrameHeader, AtStoreFrameHeader, AtInit, AtGetBlockHeader, AtGetSFrameSize, AtStoreSFrameSize,
           AtSkipSkippable, AtStoreBlockHeader, AtCopyDirect, AtGetBlockChecksum, AtGetCBlock, AtStoreCBlock,
           AtFlushOut, AtGetSuffix, AtStoreSuffix;
    }

    method DictOf(dst: array<byte>, dstPtr: nat) returns (d: Bytes)
      requires dstPtr <= dst.Length && DictShape(dstPtr) && (dict == User || dict.Dst?)
      ensures d == DictBytes(dst[..dstPtr]) && |d| == dictSize
    {
      d := if dict == User then userDict else dst[dict.pos..dstPtr];
      assert dict.Dst? ==> dst[dict.pos..dstPtr] == dst[..dstPtr][dict.pos..];
    }

    method PreserveEnd(dst: array<byte>, dstPtr: nat, ghost t: Track, ghost p: nat)
      requires dstPtr <= dst.Length && info.linked && (dict == User || dict.Dst?) && Remembers(t, p, dst[..dstPtr])
      modifies `dict, `dictSize, `tmpOut, tmpOutBuffer
      ensures Remembers(t, p, [])
    {
      hide Recent, Summed, Remembers, Track.Content, DictBytes, Ready;
      RememberedParts(t, p, dst[..dstPtr]);
      ghost var h: Bytes := if t.good then t.dictionary + t.Content()[..p] else [];
      var d := DictOf(dst, dstPtr);
      MoveDictToTmp(d, t.good, h);
      RememberedInTmp(t, p);
    }

    /** The last 64 KB of the history move to the front of the internal buffer. */
    method MoveDictToTmp(d: Bytes, ghost good: bool, ghost h: Bytes)
      requires Ready() && info.linked && (good ==> Recent(d, h))
      modifies `dict, `dictSize, `tmpOut, tmpOutBuffer
      ensures Ready() && dict == Tmp && dictSize == Min(|d|, KB64) <= tmpOutBuffer.Length
      ensures good ==> Recent(tmpOutBuffer[..dictSize], h)
    {
      hide Recent, IsBlockSize;
      ReadySizes();
      var newDictSize := Min(|d|, KB64);
      if good { RecentTrim(d, h, newDictSize); }
      CopyToFront(d, newDictSize);
      dict, dictSize, tmpOut := Tmp, newDictSize, newDictSize;
    }

    lemma RememberedParts(t: Track, p: nat, out: Bytes)
      requires Remembers(t, p, out) && info.linked
      ensures Ready() && DictShape(|out|)
      ensures t.good ==>
        Summed(t.Content(), p) && p <= |t.Content()| && Recent(DictBytes(out), t.dictionary + t.Content()[..p])
    {
    }

    lemma RememberedInTmp(t: Track, p: nat)
      requires Ready() && info.linked && dict == Tmp && dictSize <= tmpOutBuffer.Length
      requires t.good ==>
        Summed(t.Content(), p) && p <= |t.Content()| && Recent(tmpOutBuffer[..dictSize],
                                                               t.dictionary + t.Content()[..p])
      ensures Remembers(t, p, [])
    {
    }

    method PreserveFlush(dst: array<byte>, dstPtr: nat, ghost t: Track, ghost c: nat, ghost p: nat)
      requires dstPtr <= dst.Length && info.linked && (dict == User || dict.Dst?) && AtFlushOut(t, c, p, dst[..dstPtr])
      modifies `dict, `dictSize, tmpOutBuffer
      ensures AtFlushOut(t, c, p, [])
    {
      hide Ready, Summed, Recent, Kept, RoomFor, Start, Before, Track.Valid, Track.Content, InfoIs;
      var d := DictOf(dst, dstPtr);
      ghost var content: Bytes := if t.good then t.fr.blocks[block].content else [];
      ghost var pre: Bytes := if t.good then t.dictionary + t.Content()[..Before(t.fr, block)] else [];
      PreserveInFront(d, t.good, pre, content);
      hide AtFlushOut, FlushShape, FlushDict;
      dict := Tmp;
      dictSize := tmpOut + tmpOutStart;
      FlushPreserved(t, c, p, pre, content);
    }

    lemma FlushPreserved(t: Track, c: nat, p: nat, pre: Bytes, content: Bytes)
      requires stage == FlushOut && Ready() && info.linked && dict == Tmp && dictSize == tmpOut + tmpOutStart
      requires tmpOutStart <= tmpOutSize <= maxBlockSize && tmpOut + maxBlockSize <= tmpOutBuffer.Length
      requires t.good ==>
        && InBlock(t, false) && c == Start(t.fr, block + 1, hash)
        && var b := Before(t.fr, block);
        && content == t.fr.blocks[block].content
        && b + |content| <= |t.Content()|
        && |content| == tmpOutSize
        && p == b + tmpOutStart
        && Summed(t.Content(), b + |content|)
        && pre == t.dictionary + t.Content()[..b] && Kept(tmpOutBuffer[..], tmpOut, pre, content)
      ensures AtFlushOut(t, c, p, [])
    {
      hide Ready, Summed, Kept, RoomFor, Start, Before, Track.Valid, Track.Content, InfoIs;
      if t.good { KeptContent(tmpOutBuffer[..], tmpOut, pre, content); }
    }
  
    /** Where the decoder waits, the frame is not complete. */
    lemma Unfinished(t: Track, c: nat, p: nat, out: Bytes)
      requires t.Valid() && AtStage(t, c, p, out) && CanStop() && (t.good ==> c <= |t.Emitted(hash)|)
      ensures t.good ==> c < |t.Emitted(hash)|
    {
      hide AtGetBlockHeader, AtStoreBlockHeader, AtCopyDirect, AtGetBlockChecksum, AtGetCBlock, AtStoreCBlock,
           AtFlushOut, AtStage, Gathered, EmitFrame, Content, Waiting, IsSkippable, Summed;
      AtStageCase(t, c, p, out);
      if t.good {
        FrameLength(t.fr, hash);
        if InBodyStage() {
          StageParts(t, c, p, out);
          UnfinishedBody(t, c, p);
        }
        if stage == FlushOut { UnfinishedFlush(t, c, p, out); }
        if stage == StoreSuffix { SuffixAt(t); }
      }
    }

    lemma UnfinishedBody(t: Track, c: nat, p: nat)
      requires t.good && t.Valid() && InBodyStage() && Position(t, c, p) && c <= |t.Emitted(hash)|
      ensures c < |t.Emitted(hash)|
    {
      hide Gathered, EmitFrame, Content, Before, EmitBlocks, ValidFrame, EmitFrameBlock, Start, Track.Emitted;
      if block < |t.fr.blocks| {
        BlockDone(t);
        EndBeyond(t, block + 1);
      } else {
        EndBeyond(t, block);
      }
    }

    lemma UnfinishedFlush(t: Track, c: nat, p: nat, out: Bytes)
      requires t.good && t.Valid() && AtFlushOut(t, c, p, out)
      ensures c < |t.Emitted(hash)|
    {
      hide EmitFrame, Content, Before, EmitBlocks, ValidFrame, Start, Track.Emitted, FlushHistory, Summed, Ready;
      EndBeyond(t, block + 1);
    }

    lemma EndBeyond(t: Track, k: nat)
      requires t.good && t.Valid() && t.fr.Lz4Frame? && k <= |t.fr.blocks|
      ensures Start(t.fr, k, hash) + BH_SIZE <= |t.Emitted(hash)|
    {
      hide EmitFrame, Content, EmitBlocks;
      if k < |t.fr.blocks| { BlockAt(t.fr, k, hash); } else { EndAt(t.fr, hash); }
    }
  
    /** One turn of the stage loop. */
    method Step(dst: array<byte>, dstPtr0: nat, src: Bytes, srcPtr0: nat, ghost a: Call)
      returns (turn: Turn, dstPtr: nat, srcPtr: nat)
      requires a.src == src && Here(a, dst, dstPtr0, srcPtr0)
      modifies this, header, tmpIn, tmpOutBuffer, dst
      ensures (tmpIn == old(tmpIn) || fresh(tmpIn)) && (tmpOutBuffer == old(tmpOutBuffer) || fresh(tmpOutBuffer))
      ensures After(turn, a, dst, dstPtr, srcPtr) && srcPtr0 <= srcPtr && dstPtr0 <= dstPtr
      ensures turn == Another ==> srcPtr > srcPtr0 || Rank(stage) < Rank(old(stage))
    {
      hide Here, After, Rank;
      dstPtr := dstPtr0;
      if stage == CopyDirect || stage == GetCBlock || stage == StoreCBlock || stage == FlushOut {
        turn, dstPtr, srcPtr := StepOutput(dst, dstPtr0, src, srcPtr0, a);
      } else if stage == GetBlockHeader || stage == StoreBlockHeader || stage == GetBlockChecksum
                || stage == GetSuffix || stage == StoreSuffix {
        turn, srcPtr := StepControl(dst, dstPtr0, src, srcPtr0, a);
      } else {
        turn, srcPtr := StepHead(dst, dstPtr0, src, srcPtr0, a);
      }
    }

    /** The stage loop: it always stops. */
    method Run(dst: array<byte>, src: Bytes, ghost a: Call) returns (turn: Turn, dstPtr: nat, srcPtr: nat)
      requires a.src == src && Here(a, dst, 0, 0)
      modifies this, header, tmpIn, tmpOutBuffer, dst
      ensures (tmpIn == old(tmpIn) || fresh(tmpIn)) && (tmpOutBuffer == old(tmpOutBuffer) || fresh(tmpOutBuffer))
      ensures After(turn, a, dst, dstPtr, srcPtr) && turn != Another
    {
      hide AtStage, Rank, Fed, Wrote, Finished;
      dstPtr, srcPtr := 0, 0;
      turn := Another;
      while turn == Another
        invariant (tmpIn == old(tmpIn) || fresh(tmpIn)) && (tmpOutBuffer == old(tmpOutBuffer) || fresh(tmpOutBuffer))
        invariant srcPtr <= |src| || turn != Another
        invariant After(turn, a, dst, dstPtr, srcPtr)
        decreases turn == Another, |src| - srcPtr, Rank(stage)
      {
        turn, dstPtr, srcPtr := Step(dst, dstPtr, src, srcPtr, a);
        FedBound(a, srcPtr);
      }
    }

    lemma FedBound(a: Call, srcPtr: nat)
      ensures Fed(a, srcPtr) ==> srcPtr <= |a.src|
    {
    }

    /** What is known between two calls, with `c` bytes of the frame consumed and `p` bytes of its content produced. */
    ghost predicate Waits(t: Track, c: nat, p: nat)
      reads this, header, tmpIn, tmpOutBuffer
    {
      Buffers() && t.Valid() && AtStage(t, c, p,
                                        []) && CanStop() && (t.good ==> c < |t.Emitted(hash)| && p <= |t.Content()|)
    }

    /**
      `LZ4F_decompress`. On any input it terminates and stays within its buffers. On input that continues a
      well-formed frame it does not fail, whatever the sizes of input and destination: it consumes nothing
      beyond the frame, what it writes is the next part of the content, it returns 0 exactly when the frame is
      complete, and it stops before that only when the input or the room is used up.
    */
    method Decompress(dst: array<byte>, src: Bytes, skipChecksums: bool, ghost t: Track, ghost c: nat, ghost p: nat)
      returns (result: Turn, written: nat, used: nat)
      requires Waits(t, c, p) && Apart(dst) && (t.good ==> Feeds(t.Emitted(hash), c, src))
      modifies this, header, tmpIn, tmpOutBuffer, dst
      ensures (tmpIn == old(tmpIn) || fresh(tmpIn)) && (tmpOutBuffer == old(tmpOutBuffer) || fresh(tmpOutBuffer))
      ensures result != Another && Buffers() && (t.good ==> result.Pause?)
      ensures result.Pause? ==> written <= dst.Length && used <= |src|
      ensures t.good ==>
        && c + used <= |t.Emitted(hash)| && p + written <= |t.Content()|
        && dst[..written] == t.Content()[p..p + written]
        && (result.hint == 0 <==> c + used == |t.Emitted(hash)|)
        && (result.hint == 0 ==> p + written == |t.Content()| && Complete())
        && (result.hint != 0 ==> used == |src| || written == dst.Length)
      ensures result.Pause? && result.hint != 0 ==> Waits(t, c + used, p + written)
    {
      hide AtStage, Feeds, Track.Emitted, Track.Content, Track.Valid;
      ghost var a := Call(src, t, c, p);
      SkipFromNow(skipChecksums, t, c, p);
      assert dst[..0] == [];
      result, written, used := Run(dst, src, a);
      if result.Pause? && result.hint != 0 {
        Unfinished(t, c + used, p + written, dst[..written]);
        PreserveHistory(dst, written, t, c + used, p + written);
      }
    }
  
    /** Once set, the option not to compute checksums holds until the end of the frame. */
    method SkipFromNow(skip: bool, ghost t: Track, ghost c: nat, ghost p: nat)
      requires Waits(t, c, p)
      modifies `skipChecksum
      ensures Waits(t, c, p) && skipChecksum == (old(skipChecksum) || skip)
    {
      hide AtStage, Track.Emitted, Track.Content, Track.Valid, Buffers;
      if InBodyStage() {
        StageParts(t, c, p, []);
        SkipInBody(skip, t, c, p);
        StageWhole(t, c, p, []);
      } else {
        SkipElsewhere(skip, t, c, p);
      }
    }

    method SkipInBody(skip: bool, ghost t: Track, ghost c: nat, ghost p: nat)
      requires InBodyStage() && Position(t, c, p) && Remembers(t, p, [])
      modifies `skipChecksum
      ensures InBodyStage() && Position(t, c, p) && Remembers(t, p, []) && skipChecksum == (old(skipChecksum) || skip)
    {
      hide InfoIs, IsBlockSize, Gathered, Body, Start, Before, Track.Valid, HistoryOk, Track.Content, Track.Emitted;
      skipChecksum := skipChecksum || skip;
    }

    method SkipElsewhere(skip: bool, ghost t: Track, ghost c: nat, ghost p: nat)
      requires t.Valid() && !InBodyStage() && AtStage(t, c, p, [])
      modifies `skipChecksum
      ensures t.Valid() && AtStage(t, c, p, []) && skipChecksum == (old(skipChecksum) || skip)
    {
      hide NoOutputYet, Waiting, InfoIs, IsBlockSize, Gathered, Body, BlockStart, Track.Valid, InBody, InBlock,
           FlushShape, Skipping, Ready, Track.Emitted, IsSkippable, Track.Content, FlushHistory, AtGetBlockHeader,
           AtStoreBlockHeader, AtCopyDirect, AtGetBlockChecksum, AtGetCBlock, AtStoreCBlock;
      AtStageCase(t, c, p, []);
      hide AtStage;
      skipChecksum := skipChecksum || skip;
      StageElsewhere(t, c, p, []);
    }

    lemma StageElsewhere(t: Track, c: nat, p: nat, out: Bytes)
      requires t.Valid()
      requires match stage
        case GetFrameHeader => AtGetFrameHeader(t, c, p)
        case StoreFrameHeader => AtStoreFrameHeader(t, c, p)
        case Init => AtInit(t, c, p)
        case FlushOut => AtFlushOut(t, c, p, out)
        case GetSuffix => AtGetSuffix(t, c, p)
        case StoreSuffix => AtStoreSuffix(t, c, p)
        case GetSFrameSize => AtGetSFrameSize(t, c, p)
        case StoreSFrameSize => AtStoreSFrameSize(t, c, p)
        case SkipSkippable => AtSkipSkippable(t, c, p)
        case _ => false
      ensures AtStage(t, c, p, out)
    {
      hide Track.Valid, AtGetFrameHeader, AtStoreFrameHeader, AtInit, AtFlushOut, AtGetSuffix, AtStoreSuffix,
           AtGetSFrameSize, AtStoreSFrameSize, AtSkipSkippable, AtGetBlockHeader, AtStoreBlockHeader, AtCopyDirect,
           AtGetBlockChecksum, AtGetCBlock, AtStoreCBlock;
    }

    /** `LZ4F_createDecompressionContext`. */
    constructor (hash: Bytes -> U32)
      ensures Buffers() && Complete() && fresh(header) && fresh(tmpIn) && fresh(tmpOutBuffer) && this.hash == hash
    {
      this.hash := hash;
      header := new byte[MAX_FH_SIZE];
      tmpIn, tmpOutBuffer := new byte[0], new byte[0];
      info := Info(false, true, false, false, 0, 0);
      stage, frameRemainingSize, maxBlockSize, maxBufferSize := GetFrameHeader, 0, 0, 0;
      tmpInSize, tmpInTarget, tmpOut, tmpOutSize, tmpOutStart := 0, 0, 0, 0, 0;
      userDict, dict, dictSize, xxh, blockXxh, skipChecksum, block := [], Nowhere, 0, [], [], false, 0;
    }

    /** A fresh context, or one whose last frame is complete, can follow any frame. */
    lemma CompleteWaits(t: Track)
      requires Buffers() && Complete() && t.Valid() && t.dictionary == []
      ensures Waits(t, 0, 0) && (t.good ==> |t.Emitted(hash)| > 0)
    {
      hide EmitFrame, AtStoreFrameHeader, AtInit, AtGetBlockHeader, AtGetSFrameSize, AtStoreSFrameSize, AtSkipSkippable,
           ValidBlock, AtStoreBlockHeader, AtCopyDirect, AtGetBlockChecksum, AtGetCBlock, AtStoreCBlock, AtFlushOut,
           AtGetSuffix, AtStoreSuffix;
      if t.good { FrameLength(t.fr, hash); }
    }

    /** `LZ4F_decompress_usingDict`: the dictionary is taken note of until the header is decoded. */
    method DecompressUsingDict(dst: array<byte>, src: Bytes, dictionary: Bytes, skipChecksums: bool, ghost t: Track,
                               ghost c: nat, ghost p: nat)
      returns (result: Turn, written: nat, used: nat)
      requires t.Valid() && Apart(dst) && t.dictionary == dictionary && (t.good ==> Feeds(t.Emitted(hash), c, src))
      requires Waits(t, c, p) || (Buffers() && Complete() && c == 0 && p == 0)
      modifies this, header, tmpIn, tmpOutBuffer, dst
      ensures (tmpIn == old(tmpIn) || fresh(tmpIn)) && (tmpOutBuffer == old(tmpOutBuffer) || fresh(tmpOutBuffer))
      ensures result != Another && Buffers() && (t.good ==> result.Pause?)
      ensures result.Pause? ==> written <= dst.Length && used <= |src|
      ensures t.good ==>
        && c + used <= |t.Emitted(hash)| && p + written <= |t.Content()|
        && dst[..written] == t.Content()[p..p + written]
        && (result.hint == 0 <==> c + used == |t.Emitted(hash)|)
        && (result.hint == 0 ==> p + written == |t.Content()| && Complete())
        && (result.hint != 0 ==> used == |src| || written == dst.Length)
      ensures result.Pause? && result.hint != 0 ==> Waits(t, c + used, p + written)
    {
      hide Waits, Feeds, Track.Emitted, Track.Content, Track.Valid;
      if stage == GetFrameHeader || stage == StoreFrameHeader || stage == Init {
        TakeDict(dictionary, t, c, p);
      }
      result, written, used := Decompress(dst, src, skipChecksums, t, c, p);
    }
  
    method TakeDict(dictionary: Bytes, ghost t: Track, ghost c: nat, ghost p: nat)
      requires t.Valid() && t.dictionary == dictionary
      requires (stage == GetFrameHeader || stage == StoreFrameHeader || stage == Init)
      requires Waits(t, c, p) || (Buffers() && Complete() && c == 0 && p == 0)
      modifies `dict, `userDict, `dictSize
      ensures Waits(t, c, p)
    {
      hide EmitFrame, AtInit, AtGetBlockHeader, AtGetSFrameSize, AtStoreSFrameSize, AtSkipSkippable, ValidBlock,
           Gathered, IsSkippable, AtStoreBlockHeader, AtCopyDirect, AtGetBlockChecksum, AtGetCBlock, AtStoreCBlock,
           AtFlushOut, AtGetSuffix, AtStoreSuffix;
      if t.good { FrameLength(t.fr, hash); }
      if Waits(t, c, p) { AtStageCase(t, c, p, []); }
      dict, userDict, dictSize := User, dictionary, |dictionary|;
    }
  }

  // ---------------------------------------------------------------- whole runs

  /**
    Chunking independence. However the input is cut and whatever the capacities of the destinations, what has
    come out is a prefix of the content of the frame and what has gone in a prefix of the frame; the run is
    complete exactly when the whole frame has been consumed, and then exactly the content has come out. Every
    call that is given a byte and room for one makes progress, so that enough such calls complete the run; one
    call with all of the input and more room than content does so at once. Two complete runs over the same frame
    thus produce the same bytes.
  */
  method DecodeInPieces(d: Dctx, dictionary: Option<Bytes>, input: Bytes, pieces: seq<nat>, rooms: seq<nat>,
                        skips: seq<bool>, ghost t: Track)
    returns (output: Bytes, used: nat, complete: bool)
    requires |pieces| == |rooms| == |skips| && d.Buffers() && d.Complete()
    requires t.good && t.Valid() && t.dictionary == dictionary.UnwrapOr([]) && Feeds(t.Emitted(d.hash), 0, input)
    modifies d, d.header, d.tmpIn, d.tmpOutBuffer
    ensures used <= |t.Emitted(d.hash)| && |output| <= |t.Content()| && output == t.Content()[..|output|]
    ensures complete <==> used == |t.Emitted(d.hash)|
    ensures complete ==> output == t.Content() && d.Complete()
    ensures |input| >= |t.Emitted(d.hash)| && |pieces| >= |t.Emitted(d.hash)| + |t.Content()|
      && NoneEmpty(pieces) && NoneEmpty(rooms)
      ==> complete
    ensures |input| >= |t.Emitted(d.hash)|
      && (exists i :: 0 <= i < |pieces| && pieces[i] >= |input| && rooms[i] > |t.Content()|)
      ==> complete
  {
    hide Track.Emitted, Track.Content, Track.Valid, Dctx.Waits;
    FrameNotEmpty(t, d.hash);
    output, used, complete := [], 0, false;
    var i := 0;
    ghost var enough := false;
    while i < |pieces| && !complete
      invariant 0 <= i <= |pieces| && d.Buffers() && used <= |input|
      invariant (d.tmpIn == old(d.tmpIn) || fresh(d.tmpIn))
      invariant (d.tmpOutBuffer == old(d.tmpOutBuffer) || fresh(d.tmpOutBuffer))
      invariant used <= |t.Emitted(d.hash)| && |output| <= |t.Content()| && output == t.Content()[..|output|]
      invariant complete <==> used == |t.Emitted(d.hash)|
      invariant complete ==> |output| == |t.Content()| && d.Complete()
      invariant !complete ==> d.Waits(t, used, |output|) || (d.Complete() && used == |output| == 0)
      invariant !complete && |input| >= |t.Emitted(d.hash)| && NoneEmpty(pieces) && NoneEmpty(rooms) ==>
        used + |output| >= i
      invariant !complete && |input| >= |t.Emitted(d.hash)| ==>
        forall k :: 0 <= k < i ==> pieces[k] < |input| || rooms[k] <= |t.Content()|
    {
      var src := input[used..Min(|input|, used + pieces[i])];
      var dst := new byte[rooms[i]];
      LaterFeeds(t.Emitted(d.hash), input, used, src);
      var result, written, n := DecodePiece(d, dictionary, dst, src, skips[i], t, used, |output|);
      ContentGrows(t.Content(), output, dst[..written]);
      output, used := output + dst[..written], used + n;
      complete := result.hint == 0;
      i := i + 1;
    }
    assert complete ==> output == t.Content()[..|output|] == t.Content();
  }

  /** Every call is given at least one byte, of input or of room. */
  predicate NoneEmpty(sizes: seq<nat>) {
    forall i :: 0 <= i < |sizes| ==> sizes[i] >= 1
  }

  /** One call of such a run: the dictionary, if there is one, is given every time. */
  method DecodePiece(d: Dctx, dictionary: Option<Bytes>, dst: array<byte>, src: Bytes, skipChecksums: bool,
                     ghost t: Track, ghost c: nat, ghost p: nat)
    returns (result: Turn, written: nat, used: nat)
    requires d.Buffers() && (d.Waits(t, c, p) || (d.Complete() && c == p == 0)) && d.Apart(dst)
    requires t.good && t.Valid() && t.dictionary == dictionary.UnwrapOr([]) && Feeds(t.Emitted(d.hash), c, src)
    modifies d, d.header, d.tmpIn, d.tmpOutBuffer, dst
    ensures (d.tmpIn == old(d.tmpIn) || fresh(d.tmpIn))
    ensures (d.tmpOutBuffer == old(d.tmpOutBuffer) || fresh(d.tmpOutBuffer))
    ensures result.Pause? && d.Buffers() && written <= dst.Length && used <= |src|
    ensures c + used <= |t.Emitted(d.hash)| && p + written <= |t.Content()|
    ensures dst[..written] == t.Content()[p..p + written]
    ensures result.hint == 0 <==> c + used == |t.Emitted(d.hash)|
    ensures result.hint == 0 ==> p + written == |t.Content()| && d.Complete()
    ensures result.hint != 0 ==> (used == |src| || written == dst.Length) && d.Waits(t, c + used, p + written)
  {
    hide Track.Emitted, Track.Content, Track.Valid, Dctx.Waits, Feeds;
    if dictionary.Some? {
      result, written, used := d.DecompressUsingDict(dst, src, dictionary.value, skipChecksums, t, c, p);
    } else {
      if !d.Waits(t, c, p) { d.CompleteWaits(t); }
      result, written, used := d.Decompress(dst, src, skipChecksums, t, c, p);
    }
  }

  lemma FrameNotEmpty(t: Track, hash: Bytes -> U32)
    requires t.good && t.Valid()
    ensures |t.Emitted(hash)| > 0
  {
    hide EmitFrame;
    Dctx.FrameLength(t.fr, hash);
  }

  lemma LaterFeeds(F: Bytes, input: Bytes, used: nat, src: Bytes)
    requires Feeds(F, 0, input) && used <= |input| && |src| <= |input| - used && src == input[used..used + |src|]
    ensures Feeds(F, used, src)
  {
  }

  lemma ContentGrows(content: Bytes, output: Bytes, more: Bytes)
    requires |output| + |more| <= |content| && output == content[..|output|]
    requires more == content[|output|..|output| + |more|]
    ensures output + more == content[..|output + more|]
  {
  }
}
