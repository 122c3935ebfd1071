/**
  The buffering frame compressor: `LZ4F_compressBegin`, `LZ4F_compressUpdate`, `LZ4F_flush` and
  `LZ4F_compressEnd`, in compressed mode, for the fast compression levels and without a prepared dictionary.

  Memory is one array `mem`. The internal buffer lies in it at `tmpBuff`; sources lie elsewhere in it. With
  linked blocks the block compressor keeps its history where the last block was, so what the context does
  with `tmpIn` decides whether that history is still there for the next block.
*/
module FrameCompressor {
  import opened Division
  import opened Wrappers
  import opened Lz4Format
  import opened FrameFormat
  import opened FastStream
  import BlockCompressor
  import BlockDecoder
  import FrameDecoder

  /** `LZ4F_preferences_t`; a block size of 0 stands for the default. */
  datatype Prefs = Prefs(linked: bool, blockChecksum: bool, contentChecksum: bool, contentSize: U64, dictID: U32,
                         blockSizeId: nat,
                         autoFlush: bool, level: int)
  {
    predicate Valid() {
      (blockSizeId == 0 || IsBlockSizeId(blockSizeId)) && level < 3
    }

    function Id(): nat {
      if blockSizeId == 0 then 4 else blockSizeId
    }

    function Header(): Header {
      FrameFormat.Header(linked, blockChecksum, contentChecksum, if contentSize > 0 then Some(contentSize) else None,
                         if dictID > 0 then Some(dictID) else None, Id())
    }

    function CrcSize(): nat {
      if blockChecksum then BF_SIZE else 0
    }

    function FrameEnd(): nat {
      BH_SIZE + if contentChecksum then BF_SIZE else 0
    }
  }

  datatype CError = DstTooSmall | StateUninitialized | FrameSizeWrong

  // ---------------------------------------------------------------- sizes

  /** What `full` whole blocks and, if `last` is not zero, a smaller one take at most: `per` bytes of header and
      checksum each, and the contents. */
  function BlocksCost(per: nat, blockSize: nat, full: nat, last: nat): nat {
    per * full + blockSize * full + if last > 0 then per + last else 0
  }

  /** `LZ4F_compressBound_internal`. */
  function CompressBoundInternal(p: Prefs, srcSize: nat, alreadyBuffered: nat): nat
    requires p.Valid()
  {
    var blockSize := BlockSize(p.Id());
    var flush := p.autoFlush || srcSize == 0;
    var maxSrcSize := srcSize + Min(alreadyBuffered, blockSize - 1);
    BlocksCost(BH_SIZE + p.CrcSize(), blockSize, maxSrcSize / blockSize,
               if flush then maxSrcSize % blockSize else 0) + p.FrameEnd()
  }

  /** `LZ4F_compressBound`: for the worst case of what may be buffered. */
  function CompressBound(p: Prefs, srcSize: nat): nat
    requires p.Valid()
  {
    CompressBoundInternal(p, srcSize, if p.autoFlush then 0 else 0xFFFF_FFFF_FFFF_FFFF)
  }

  /** More input costs more. */
  lemma CostGrows(per: nat, bs: nat, q: nat, r: nat, q': nat, r': nat)
    requires r < bs && r' < bs && bs * q + r <= bs * q' + r'
    ensures BlocksCost(per, bs, q, r) <= BlocksCost(per, bs, q', r')
    ensures BlocksCost(per, bs, q, 0) <= BlocksCost(per, bs, q', r')
    ensures BlocksCost(per, bs, q, 0) <= BlocksCost(per, bs, q', 0)
  {
    QuotientLe(bs, q, r, q', r');
    if q < q' {
      hide BlocksCost;
      MulLe(q + 1, q', bs);
      MulLe(q + 1, q', per);
      CostAtLeast(per, bs, q, r, q', r');
    }
  }

  lemma CostAtLeast(per: nat, bs: nat, q: nat, r: nat, q': nat, r': nat)
    requires r < bs && per * (q + 1) <= per * q' && bs * (q + 1) <= bs * q'
    ensures BlocksCost(per, bs, q, r) <= BlocksCost(per, bs, q', r')
    ensures BlocksCost(per, bs, q, 0) <= BlocksCost(per, bs, q', r')
    ensures BlocksCost(per, bs, q, 0) <= BlocksCost(per, bs, q', 0)
  {
    assert per * (q + 1) == per * q + per;
    assert bs * (q + 1) == bs * q + bs;
  }

  /** The public bound is good for whatever is buffered. */
  lemma BoundCovers(p: Prefs, srcSize: nat, buffered: nat)
    requires p.Valid() && (p.autoFlush ==> buffered == 0) && buffered < BlockSize(p.Id())
    ensures CompressBoundInternal(p, srcSize, buffered) <= CompressBound(p, srcSize)
  {
    hide BlocksCost;
    var bs := BlockSize(p.Id());
    var n, n' := srcSize + buffered, srcSize + Min(if p.autoFlush then 0 else 0xFFFF_FFFF_FFFF_FFFF, bs - 1);
    DivRest(n, bs);
    DivRest(n', bs);
    CostGrows(BH_SIZE + p.CrcSize(), bs, n / bs, n % bs, n' / bs, n' % bs);
  }

  /** Within a call of `total` bytes, counting what was buffered: after `i` full blocks of it there is room for one
      more, and with `autoFlush` for what remains. */
  lemma BoundRoom(p: Prefs, srcSize: nat, buffered: nat, i: nat, n: nat)
    requires p.Valid() && buffered < BlockSize(p.Id()) && n > 0
    requires var bs := BlockSize(p.Id());
      && bs * i + n <= srcSize + buffered
      && (n == bs || (n < bs && p.autoFlush && bs * i + n == srcSize + buffered))
    ensures (BH_SIZE + p.CrcSize()) * i + BlockSize(p.Id()) * i + (BH_SIZE + p.CrcSize() + n) + p.FrameEnd()
      <= CompressBoundInternal(p, srcSize, buffered)
  {
    hide BlocksCost;
    var bs, per, total := BlockSize(p.Id()), BH_SIZE + p.CrcSize(), srcSize + buffered;
    DivRest(total, bs);
    if n == bs {
      assert bs * (i + 1) == bs * i + bs;
      CostGrows(per, bs, i + 1, 0, total / bs, total % bs);
      OneMore(per, bs, i);
    } else {
      SameQuotient(bs, i, n, total / bs, total % bs);
      LastOne(per, bs, i, n);
    }
  }

  /** Full blocks alone are within the bound. */
  lemma BoundWithin(p: Prefs, srcSize: nat, buffered: nat, i: nat)
    requires p.Valid() && buffered < BlockSize(p.Id()) && BlockSize(p.Id()) * i <= srcSize + buffered
    ensures (BH_SIZE + p.CrcSize()) * i + BlockSize(p.Id()) * i <= CompressBoundInternal(p, srcSize, buffered)
  {
    var bs, per, total := BlockSize(p.Id()), BH_SIZE + p.CrcSize(), srcSize + buffered;
    DivRest(total, bs);
    WholeBlocksCost(per, bs, i);
    hide BlocksCost;
    CostGrows(per, bs, i, 0, total / bs, total % bs);
  }

  lemma WholeBlocksCost(per: nat, bs: nat, i: nat)
    ensures BlocksCost(per, bs, i, 0) == per * i + bs * i
  {
  }

  lemma OneMore(per: nat, bs: nat, i: nat)
    ensures BlocksCost(per, bs, i + 1, 0) == per * i + bs * i + per + bs
  {
    assert per * (i + 1) == per * i + per;
    assert bs * (i + 1) == bs * i + bs;
  }

  lemma LastOne(per: nat, bs: nat, i: nat, n: nat)
    requires n > 0
    ensures BlocksCost(per, bs, i, n) == per * i + bs * i + per + n
  {
  }

  /** The bound for no input is enough to flush what is buffered and to end the frame. */
  lemma BoundForEnd(p: Prefs, buffered: nat)
    requires p.Valid() && buffered < BlockSize(p.Id()) && (p.autoFlush ==> buffered == 0)
    ensures buffered > 0 ==> buffered + BH_SIZE + BF_SIZE <= CompressBound(p, 0)
    ensures (if buffered > 0 then BH_SIZE + p.CrcSize() + buffered else 0) + p.FrameEnd() <= CompressBound(p, 0)
  {
  }

  // ---------------------------------------------------------------- the blocks of a frame so far

  /** Every block is well-formed after the blocks before it. */
  ghost predicate ValidBlocks(h: Header, blocks: seq<FrameBlock>)
  {
    IsBlockSizeId(h.blockSizeId) &&
    forall k :: 0 <= k < |blocks| ==> ValidBlock(blocks[k], BlockSize(h.blockSizeId), BlockHistory(h, [], blocks[..k]))
  }

  lemma ValidBlocksSized(h: Header, blocks: seq<FrameBlock>)
    requires ValidBlocks(h, blocks)
    ensures Sized(blocks)
  {
    hide Encodes, Content;
    forall k | 0 <= k < |blocks|
      ensures |blocks[k].data| < UNCOMPRESSED_FLAG
    {
      assert ValidBlock(blocks[k], BlockSize(h.blockSizeId), BlockHistory(h, [], blocks[..k]));
    }
  }

  /** One more block. */
  lemma BlocksGrow(h: Header, blocks: seq<FrameBlock>, b: FrameBlock, hash: Bytes -> U32)
    requires ValidBlocks(h, blocks) && ValidBlock(b, BlockSize(h.blockSizeId), BlockHistory(h, [], blocks))
    ensures ValidBlocks(h, blocks + [b]) && Sized(blocks) && Sized(blocks + [b]) && |b.data| < UNCOMPRESSED_FLAG
    ensures Content(blocks + [b]) == Content(blocks) + b.content
    ensures EmitBlocks(blocks + [b], h.blockChecksum, hash)
      == EmitBlocks(blocks, h.blockChecksum, hash) + EmitFrameBlock(b, h.blockChecksum, hash)
  {
    hide Encodes;
    var more := blocks + [b];
    assert more[..|blocks|] == blocks;
    forall k | 0 <= k < |more|
      ensures ValidBlock(more[k], BlockSize(h.blockSizeId), BlockHistory(h, [], more[..k]))
    {
      if k < |blocks| { assert more[..k] == blocks[..k]; }
    }
    ValidBlocksSized(h, blocks);
    ValidBlocksSized(h, more);
  }

  // ---------------------------------------------------------------- the context

  /** How far the internal buffer may grow. */
  const MAX_BUFFER := 0x40_0000 + KB128

  class Cctx {
    const hash: Bytes -> U32
    const lzHash: Bytes -> nat
    const mem: array<byte>
    const tmpBuff: nat
    const stream: Stream
    var prefs: Prefs
    var cStage: nat
    var maxBlockSize: nat
    var maxBufferSize: nat
    var tmpIn: nat
    var tmpInSize: nat
    var totalInSize: U64
    /** What has been fed to the content checksum since it was reset. */
    var xxh: Bytes
    /** The blocks written, and all input received, since the frame began. */
    ghost var blocks: seq<FrameBlock>
    ghost var input: Bytes

    /** The block compressor's state, whatever it was last used for. */
    ghost predicate StreamOk()
      reads stream, stream.hashTable
    {
      stream.Valid() && (stream.tableKind == Cleared ==> stream.currentOffset == 0)
    }

    /** A frame is open and its blocks are well-formed. */
    ghost predicate Framed()
      reads `prefs, `maxBlockSize, `blocks
    {
      && prefs.Valid() && maxBlockSize == BlockSize(prefs.Id()) && tmpBuff + MAX_BUFFER <= mem.Length
      && ValidBlocks(prefs.Header(), blocks)
    }

    /** What has been written since the frame began. */
    ghost function Emitted(): Bytes
      requires Framed()
      reads `prefs, `maxBlockSize, `blocks
    {
      ValidBlocksSized(prefs.Header(), blocks);
      EmitHeader(prefs.Header(), hash) + EmitBlocks(blocks, prefs.blockChecksum, hash)
    }

    /** With linked blocks, the block compressor finds the end of all contents so far in memory. */
    ghost predicate History()
      reads `prefs, `blocks, stream, mem
    {
      prefs.linked ==> stream.StreamMode() && stream.DictHolds(mem[..], Content(blocks))
    }

    /** The block compressor's dictionary is in the internal buffer, right before `tmpIn`. */
    ghost predicate DictInTmp()
      reads `prefs, `tmpIn, stream
    {
      prefs.linked && stream.dictSize > 0 ==>
        tmpBuff <= stream.dictionary && stream.dictionary + stream.dictSize == tmpIn
    }

    /** The internal buffer has room for the block being gathered. */
    ghost predicate BufferFits()
      reads `prefs, `maxBlockSize, `maxBufferSize, `tmpIn, `tmpInSize
    {
      && tmpInSize < maxBlockSize && tmpBuff <= tmpIn && maxBufferSize <= MAX_BUFFER
      && (if prefs.autoFlush then
            tmpInSize == 0 && tmpIn <= tmpBuff + maxBufferSize && (prefs.linked ==> KB64 <= maxBufferSize)
          else
            && tmpIn + maxBlockSize <= tmpBuff + maxBufferSize
            && maxBlockSize + (if prefs.linked then KB128 else 0) <= maxBufferSize)
      && (!prefs.linked ==> tmpIn == tmpBuff)
    }

    /** Checksum and total size of the input. */
    ghost predicate Counted()
      reads `prefs, `xxh, `totalInSize, `input
    {
      && (prefs.contentChecksum ==> xxh == input)
      && (prefs.contentSize > 0 ==> totalInSize == |input| % 0x1_0000_0000_0000_0000)
    }

    /** Blocks written followed by what is buffered are `all`. */
    ghost predicate Holds(all: Bytes)
      reads `cStage, `prefs, `maxBlockSize, `blocks, `maxBufferSize, `tmpIn, `tmpInSize, stream, stream.hashTable, mem
    {
      && cStage == 1 && Framed() && StreamOk() && BufferFits() && History() && DictInTmp()
      && tmpIn + tmpInSize <= mem.Length && Content(blocks) + mem[tmpIn..tmpIn + tmpInSize] == all
    }

    /** Between calls: blocks written followed by what is buffered are all of the input. */
    ghost predicate Open()
      reads this, stream, stream.hashTable, mem
    {
      Holds(input) && Counted()
    }

    /** Memory in front of the internal buffer and behind it. */
    static function Around(m: Bytes, lo: nat, hi: nat): (Bytes, Bytes)
      requires lo <= hi <= |m|
    {
      (m[..lo], m[hi..])
    }

    /** The caller's part of memory. */
    ghost function Callers(): (Bytes, Bytes)
      requires tmpBuff + MAX_BUFFER <= mem.Length
      reads mem
    {
      Around(mem[..], tmpBuff, tmpBuff + MAX_BUFFER)
    }

    static lemma AroundKept(before: Bytes, after: Bytes, lo: nat, hi: nat, at: nat, n: nat)
      requires |after| == |before| && lo <= at && at + n <= hi <= |before|
      requires forall i :: 0 <= i < |before| && !(at <= i < at + n) ==> after[i] == before[i]
      ensures Around(after, lo, hi) == Around(before, lo, hi)
    {
      assert after[..lo] == before[..lo] && after[hi..] == before[hi..];
    }

    lemma CallersAre()
      requires tmpBuff + MAX_BUFFER <= mem.Length
      ensures Callers() == Around(mem[..], tmpBuff, tmpBuff + MAX_BUFFER)
    {
    }

    lemma CallersKept(before: Bytes, at: nat, n: nat)
      requires tmpBuff + MAX_BUFFER <= mem.Length == |before| && tmpBuff <= at && at + n <= tmpBuff + MAX_BUFFER
      requires forall i :: 0 <= i < mem.Length && !(at <= i < at + n) ==> mem[i] == before[i]
      ensures Callers() == Around(before, tmpBuff, tmpBuff + MAX_BUFFER)
    {
      AroundKept(before, mem[..], tmpBuff, tmpBuff + MAX_BUFFER, at, n);
    }

    /** A source of the caller, apart from the internal buffer. */
    ghost predicate Source(source: nat, size: nat)
    {
      source + size <= mem.Length && (source + size <= tmpBuff || tmpBuff + MAX_BUFFER <= source)
    }

    /** A context for frames: `tmpBuff` is where the internal buffer will be in `mem`. */
    constructor (mem: array<byte>, tmpBuff: nat, hash: Bytes -> U32, lzHash: Bytes -> nat)
      requires tmpBuff + MAX_BUFFER <= mem.Length
      ensures StreamOk() && cStage == 0 && fresh(stream) && fresh(stream.hashTable)
      ensures this.mem == mem && this.tmpBuff == tmpBuff && this.hash == hash
    {
      this.hash, this.lzHash, this.mem, this.tmpBuff := hash, lzHash, mem, tmpBuff;
      stream := new Stream(4096);
      prefs := Prefs(true, false, false, 0, 0, 0, false, 0);
      cStage, maxBlockSize, maxBufferSize, tmpIn, tmpInSize, totalInSize, xxh := 0, 0, 0, tmpBuff, 0, 0, [];
      blocks, input := [], [];
    }

    // -------------------------------------------------------------- one block

    /** The compression function of the context, into a scratch buffer of `capacity` bytes. */
    method CompressBlock(source: nat, n: nat, scratch: array<byte>) returns (cSize: nat)
      requires Framed() && StreamOk() && 0 < n <= maxBlockSize && source + n <= mem.Length && scratch != mem
      requires prefs.linked ==> stream.StreamMode() && stream.DictAvailable(mem[..], Content(blocks), source, n)
      modifies stream, stream.hashTable, scratch
      ensures StreamOk() && cSize <= scratch.Length
      ensures cSize > 0 ==> Encodes(scratch[..cSize], BlockHistory(prefs.Header(), [], blocks), mem[source..source + n])
      ensures prefs.linked ==>
        stream.StreamMode() && stream.DictHolds(mem[..], Content(blocks) + mem[source..source + n])
      ensures prefs.linked ==>
        && stream.dictionary + stream.dictSize == source + n
        && (stream.dictionary == source
           || (old(stream.dictionary + stream.dictSize) == source && stream.dictionary >= old(stream.dictionary)))
    {
      hide Encodes, Content, ValidBlocks, Stream.Valid, Stream.DictAvailable, Stream.DictHolds;
      var acceleration := if prefs.level < 0 then -prefs.level + 1 else 1;
      if prefs.linked {
        ghost var history := Content(blocks);
        assert [] + history == history;
        ghost var used, prefix;
        cSize, used, prefix := stream.CompressFastContinue(mem, source, n, scratch, scratch.Length, acceleration,
                                                           lzHash, history);
      } else {
        cSize := stream.CompressFastReset(mem[source..source + n], scratch, scratch.Length, acceleration, lzHash);
      }
    }
  
    /** Header, data and checksum of one block. */
    method WriteBlock(dst: array<byte>, dstPtr: nat, data: Bytes, raw: bool, ghost b: FrameBlock) returns (written: nat)
      requires |data| < UNCOMPRESSED_FLAG && dstPtr + BH_SIZE + |data| + prefs.CrcSize() <= dst.Length
      requires b.data == data && b.raw == raw
      modifies dst
      ensures written == BH_SIZE + |data| + prefs.CrcSize()
      ensures dst[..dstPtr + written] == old(dst[..dstPtr]) + EmitFrameBlock(b, prefs.blockChecksum, hash)
    {
      hide LE32;
      ghost var out := dst[..dstPtr];
      var word := LE32(|data| + if raw then UNCOMPRESSED_FLAG else 0);
      var crc: Bytes := if prefs.blockChecksum then LE32(hash(data)) else [];
      Append(dst, dstPtr, word);
      Append(dst, dstPtr + 4, data);
      Append(dst, dstPtr + 4 + |data|, crc);
      written := BH_SIZE + |data| + |crc|;
      Joined(out, word, data, crc);
    }

    static method Append(dst: array<byte>, at: nat, bytes: Bytes)
      requires at + |bytes| <= dst.Length
      modifies dst
      ensures dst[..at + |bytes|] == old(dst[..at]) + bytes
    {
      BlockDecoder.CopyExactly(dst, at, bytes, 0, |bytes|);
      assert bytes[0..0 + |bytes|] == bytes;
    }

    static lemma Joined(a: Bytes, b: Bytes, c: Bytes, d: Bytes)
      ensures a + b + c + d == a + (b + (c + d))
    {
    }

    /** `LZ4F_makeBlock`: a block is stored when compressing it does not make it smaller. */
    method MakeBlock(dst: array<byte>, dstPtr: nat, source: nat, n: nat) returns (written: nat, ghost b: FrameBlock)
      requires Framed() && StreamOk() && 0 < n <= maxBlockSize && source + n <= mem.Length && dst != mem
      requires dstPtr + BH_SIZE + n + prefs.CrcSize() <= dst.Length
      requires prefs.linked ==> stream.StreamMode() && stream.DictAvailable(mem[..], Content(blocks), source, n)
      modifies `blocks, stream, stream.hashTable, dst
      ensures Framed() && StreamOk() && blocks == old(blocks) + [b] && b.content == mem[source..source + n]
      ensures |b.data| < UNCOMPRESSED_FLAG
      ensures written <= BH_SIZE + n + prefs.CrcSize()
      ensures dst[..dstPtr + written] == old(dst[..dstPtr]) + EmitFrameBlock(b, prefs.blockChecksum, hash)
      ensures Emitted() == old(Emitted()) + EmitFrameBlock(b, prefs.blockChecksum, hash)
      ensures Content(blocks) == Content(old(blocks)) + mem[source..source + n]
      ensures History()
      ensures prefs.linked ==>
        && stream.dictionary + stream.dictSize == source + n
        && (stream.dictionary == source
           || (old(stream.dictionary + stream.dictSize) == source && stream.dictionary >= old(stream.dictionary)))
    {
      hide Encodes, Content, EmitFrameBlock, Stream.DictAvailable, Stream.DictHolds, ValidBlocks, EmitBlocks,
           EmitHeader;
      var scratch := new byte[n - 1];
      var cSize := CompressBlock(source, n, scratch);
      var raw := cSize == 0 || cSize >= n;
      var data := if raw then mem[source..source + n] else scratch[..cSize];
      b := FrameBlock(raw, data, mem[source..source + n]);
      BlocksGrow(prefs.Header(), blocks, b, hash);
      ghost var before := blocks;
      written := WriteBlock(dst, dstPtr, data, raw, b);
      blocks := blocks + [b];
      EmittedGrows(prefs.Header(), EmitHeader(prefs.Header(), hash), before, b);
    }

    lemma EmittedGrows(h: Header, header: Bytes, blocks: seq<FrameBlock>, b: FrameBlock)
      requires Sized(blocks) && Sized(blocks + [b]) && |b.data| < UNCOMPRESSED_FLAG
      requires EmitBlocks(blocks + [b], h.blockChecksum, hash)
        == EmitBlocks(blocks, h.blockChecksum, hash) + EmitFrameBlock(b, h.blockChecksum, hash)
      ensures header + EmitBlocks(blocks + [b], h.blockChecksum, hash)
        == header + EmitBlocks(blocks, h.blockChecksum, hash) + EmitFrameBlock(b, h.blockChecksum, hash)
    {
    }
  
    // -------------------------------------------------------------- update

    /** Where the block compressor's dictionary is in the middle of a call: at the end of what has been compressed
        from the source, or in the internal buffer. */
    ghost predicate DictPlaced(source: nat, srcPtr: nat, fromSrc: bool)
      reads `prefs, `tmpIn, stream
    {
      if fromSrc then
        prefs.linked && stream.dictSize > 0 ==> stream.dictionary + stream.dictSize == source + srcPtr
      else DictInTmp()
    }

    ghost predicate TmpRoom()
      reads `prefs, `maxBlockSize, `maxBufferSize, `tmpIn
    {
      && tmpBuff <= tmpIn <= tmpBuff + maxBufferSize && maxBufferSize <= MAX_BUFFER
      && (if prefs.autoFlush then prefs.linked ==> KB64 <= maxBufferSize
          else maxBlockSize + (if prefs.linked then KB128 else 0) <= maxBufferSize)
      && (!prefs.linked ==> tmpIn == tmpBuff)
    }

    /** In the middle of a call on the source `src`: nothing is buffered, and the blocks written hold all earlier
        input and the first `srcPtr` bytes of the source. */
    ghost predicate Mid(src: Bytes, source: nat, srcPtr: nat, fromSrc: bool)
      reads this, stream, stream.hashTable, mem
    {
      && cStage == 1 && Framed() && StreamOk() && History() && TmpRoom() && tmpInSize == 0
      && Source(source, |src|) && mem[source..source + |src|] == src && srcPtr <= |src|
      && Content(blocks) == input + src[..srcPtr] && DictPlaced(source, srcPtr, fromSrc)
    }

    /** A part of memory apart from the dictionary may change. */
    lemma DictUnmoved(before: Bytes, after: Bytes, history: Bytes, at: nat, n: nat)
      requires stream.DictHolds(before, history) && |after| == |before| && at + n <= |before|
      requires forall i :: 0 <= i < |before| && !(at <= i < at + n) ==> after[i] == before[i]
      requires stream.dictSize == 0 || stream.dictionary + stream.dictSize <= at || at + n <= stream.dictionary
      ensures stream.DictHolds(after, history)
    {
      var d, k := stream.dictionary, stream.dictSize;
      assert after[d..d + k] == before[d..d + k];
    }

    /** The dictionary is where the block compressor wants it for a block at `at` that it directly precedes, or that
        lies elsewhere. */
    lemma DictReady(m: Bytes, history: Bytes, at: nat, n: nat)
      requires stream.DictHolds(m, history) && at + n <= |m|
      requires stream.dictSize == 0 || stream.dictionary + stream.dictSize <= at || at + n <= stream.dictionary
      ensures stream.DictAvailable(m, history, at, n)
    {
      var d, k := stream.dictionary, stream.dictSize;
      forall i | d <= i < d + k
        ensures m[i] == history[i - (d + k) + |history|]
      {
        assert m[d..d + k][i - d] == history[|history| - k..][i - d];
      }
    }

    /** `memcpy` of part of the source behind what is buffered. */
    method BufferMore(source: nat, n: nat, at: nat)
      requires Source(source, n) && tmpBuff <= at && at + n <= tmpBuff + MAX_BUFFER <= mem.Length
      requires prefs.linked ==> stream.DictHolds(mem[..], Content(blocks))
      requires prefs.linked && stream.dictSize > 0 ==> stream.dictionary + stream.dictSize <= at
      modifies mem
      ensures prefs.linked ==> stream.DictHolds(mem[..], Content(blocks))
      ensures forall i :: 0 <= i < mem.Length && !(at <= i < at + n) ==> mem[i] == old(mem[i])
      ensures mem[..][at..at + n] == old(mem[..][source..source + n])
      ensures Callers() == old(Callers())
    {
      hide Callers, Stream.DictHolds, Content;
      ghost var before := mem[..];
      CallersAre();
      BlockDecoder.CopyExactly(mem, at, mem[source..source + n], 0, n);
      assert mem[..][at..at + n] == mem[at..at + n] == before[source..source + n];
      if prefs.linked { DictUnmoved(before, mem[..], Content(blocks), at, n); }
      CallersKept(before, at, n);
    }

    lemma SourceSlice(m: Bytes, source: nat, src: Bytes, i: nat, n: nat)
      requires source + |src| <= |m| && m[source..source + |src|] == src && i + n <= |src|
      ensures m[source + i..source + i + n] == src[i..i + n]
      ensures input + src[..i] + src[i..i + n] == input + src[..i + n]
    {
      SliceOfAt(m, source, src, i, n);
      assert src[..i + n] == src[..i] + src[i..i + n];
    }

    /** One full or last block from the source. */
    method BlockFromSource(dst: array<byte>, dstPtr: nat, ghost src: Bytes, source: nat, srcPtr: nat, n: nat,
                           ghost fromSrc: bool)
      returns (written: nat, ghost b: FrameBlock)
      requires Mid(src, source, srcPtr, fromSrc) && 0 < n <= maxBlockSize && srcPtr + n <= |src| && dst != mem
      requires dstPtr + BH_SIZE + n + prefs.CrcSize() <= dst.Length
      modifies `blocks, stream, stream.hashTable, dst
      ensures Mid(src, source, srcPtr + n, true)
      ensures written <= BH_SIZE + n + prefs.CrcSize() && |b.data| < UNCOMPRESSED_FLAG
      ensures dst[..dstPtr + written] == old(dst[..dstPtr]) + EmitFrameBlock(b, prefs.blockChecksum, hash)
      ensures Emitted() == old(Emitted()) + EmitFrameBlock(b, prefs.blockChecksum, hash)
    {
      hide Content, Stream.DictHolds, Stream.DictAvailable, ValidBlocks, EmitFrameBlock, Stream.Valid, Framed;
      if prefs.linked { DictReady(mem[..], Content(blocks), source + srcPtr, n); }
      SourceSlice(mem[..], source, src, srcPtr, n);
      written, b := MakeBlock(dst, dstPtr, source + srcPtr, n);
    }
  
    /** What has been written in this call extends what the frame had before. */
    ghost predicate Extends(before: Bytes, out: Bytes)
      requires Framed()
      reads `prefs, `maxBlockSize, `blocks
    {
      Emitted() == before + out
    }

    static lemma ExtendsMore(before: Bytes, out: Bytes, x: Bytes)
      ensures before + out + x == before + (out + x)
    {
    }

    /** Cost of `i` full blocks. */
    function Spent(i: nat): nat
      reads `prefs, `maxBlockSize
    {
      (BH_SIZE + prefs.CrcSize()) * i + maxBlockSize * i
    }

    lemma SpentMore(i: nat)
      ensures Spent(i + 1) == Spent(i) + BH_SIZE + prefs.CrcSize() + maxBlockSize
      ensures maxBlockSize * (i + 1) == maxBlockSize * i + maxBlockSize
      ensures Spent(0) == 0
    {
      assert (BH_SIZE + prefs.CrcSize()) * (i + 1) == (BH_SIZE + prefs.CrcSize()) * i + BH_SIZE + prefs.CrcSize();
    }

    /** `memcpy` of the beginning of the source behind what is buffered. */
    method BufferSource(source: nat, n: nat, ghost src: Bytes, ghost was: Bytes)
      requires Framed() && History() && DictInTmp() && tmpBuff <= tmpIn && tmpIn + tmpInSize + n <= tmpBuff + MAX_BUFFER
      requires Source(source, |src|) && mem[source..source + |src|] == src && n <= |src|
      requires was == mem[tmpIn..tmpIn + tmpInSize]
      modifies mem
      ensures History() && mem[source..source + |src|] == src
      ensures mem[tmpIn..tmpIn + tmpInSize + n] == was + src[..n]
      ensures Callers() == old(Callers())
    {
      hide Callers, Content, Stream.DictHolds, ValidBlocks;
      ghost var m := mem[..];
      BufferMore(source, n, tmpIn + tmpInSize);
      BufferedMore(m, mem[..], tmpIn, tmpInSize, n, source, src);
    }

    static lemma SourceKept(before: Bytes, after: Bytes, at: nat, n: nat, source: nat, src: Bytes)
      requires |after| == |before| && at + n <= |before| && source + |src| <= |before|
      requires before[source..source + |src|] == src
      requires forall i :: 0 <= i < |before| && !(at <= i < at + n) ==> after[i] == before[i]
      requires source + |src| <= at || at + n <= source
      ensures after[source..source + |src|] == src
    {
      forall i | 0 <= i < |src|
        ensures after[source..source + |src|][i] == src[i]
      {
        assert after[source + i] == before[source + i] == before[source..source + |src|][i];
      }
    }

    static lemma BufferedMore(before: Bytes, after: Bytes, at: nat, k: nat, n: nat, source: nat, src: Bytes)
      requires |after| == |before| && at + k + n <= |before| && source + |src| <= |before| && n <= |src|
      requires source + |src| <= at || at + k + n <= source
      requires before[source..source + |src|] == src
      requires forall i :: 0 <= i < |before| && !(at + k <= i < at + k + n) ==> after[i] == before[i]
      requires after[at + k..at + k + n] == before[source..source + n]
      ensures after[at..at + k + n] == before[at..at + k] + src[..n]
      ensures after[source..source + |src|] == src
    {
      SliceOfAt(before, source, src, 0, n);
      SliceJoin(after, at, at + k, at + k + n);
      SourceKept(before, after, at + k, n, at, before[at..at + k]);
      SourceKept(before, after, at + k, n, source, src);
    }

    /** What is buffered becomes a block. */
    method BlockFromTmp(n: nat, source: nat, dst: array<byte>, ghost src: Bytes, ghost srcPtr: nat)
      returns (dstPtr: nat)
      requires cStage == 1 && Framed() && StreamOk() && History() && DictInTmp() && TmpRoom() && dst != mem
      requires !prefs.autoFlush && tmpIn + maxBlockSize <= tmpBuff + maxBufferSize && 0 < n <= maxBlockSize
      requires Source(source, |src|) && mem[source..source + |src|] == src && srcPtr <= |src|
      requires Content(blocks) + mem[tmpIn..tmpIn + n] == input + src[..srcPtr]
      requires BH_SIZE + n + prefs.CrcSize() <= dst.Length
      modifies `blocks, `tmpIn, `tmpInSize, stream, stream.hashTable, dst
      ensures Mid(src, source, srcPtr, false)
      ensures dstPtr <= BH_SIZE + n + prefs.CrcSize() && dstPtr <= dst.Length && Extends(old(Emitted()), dst[..dstPtr])
    {
      hide Content, Stream.DictHolds, Stream.DictAvailable, ValidBlocks, EmitFrameBlock, Stream.Valid, Framed, Emitted,
           Mid, History;
      BlockSizePositive();
      TmpBlockReady(n);
      ghost var b;
      dstPtr, b := MakeBlock(dst, 0, tmpIn, n);
      assert dst[..dstPtr] == EmitFrameBlock(b, prefs.blockChecksum, hash);
      AdvanceTmpIn(n);
      TmpBlockDone(source, src, srcPtr);
    }

    method AdvanceTmpIn(n: nat)
      requires TmpRoom() && tmpIn + n <= tmpBuff + maxBufferSize
      requires prefs.linked && stream.dictSize > 0 ==>
        tmpBuff <= stream.dictionary && stream.dictionary + stream.dictSize == tmpIn + n
      modifies `tmpIn, `tmpInSize
      ensures TmpRoom() && DictInTmp() && tmpInSize == 0
    {
      if prefs.linked { tmpIn := tmpIn + n; }
      tmpInSize := 0;
    }

    lemma TmpBlockReady(n: nat)
      requires Framed() && History() && DictInTmp() && TmpRoom() && tmpIn + n <= tmpBuff + maxBufferSize
      ensures tmpIn + n <= mem.Length
      ensures prefs.linked ==> stream.StreamMode() && stream.DictAvailable(mem[..], Content(blocks), tmpIn, n)
    {
      hide Content, Stream.DictHolds, Stream.DictAvailable, ValidBlocks;
      if prefs.linked { DictReady(mem[..], Content(blocks), tmpIn, n); }
    }

    lemma TmpBlockDone(source: nat, src: Bytes, srcPtr: nat)
      requires cStage == 1 && Framed() && StreamOk() && History() && DictInTmp() && tmpInSize == 0
      requires TmpRoom() && Source(source, |src|) && mem[source..source + |src|] == src && srcPtr <= |src|
      requires Content(blocks) == input + src[..srcPtr]
      ensures Mid(src, source, srcPtr, false)
    {
    }

    lemma BlockSizePositive()
      requires Framed()
      ensures maxBlockSize > 1 && tmpBuff + MAX_BUFFER <= mem.Length
    {
      hide ValidBlocks;
    }

    /** The source begins by completing the block that is buffered: either it does not, or that block is written. */
    method CompleteTmp(source: nat, srcSize: nat, dst: array<byte>, ghost src: Bytes)
      returns (srcPtr: nat, dstPtr: nat)
      requires Holds(input) && tmpInSize > 0 && Source(source, srcSize) && src == mem[source..source + srcSize]
      requires dst != mem
      requires BH_SIZE + maxBlockSize + prefs.CrcSize() <= dst.Length || tmpInSize + srcSize < maxBlockSize
      requires !prefs.autoFlush
      modifies `blocks, `tmpIn, `tmpInSize, stream, stream.hashTable, mem, dst
      ensures Framed() && dstPtr <= dst.Length && Extends(old(Emitted()), dst[..dstPtr])
      ensures if old(tmpInSize) + srcSize < maxBlockSize then
          srcPtr == srcSize && dstPtr == 0 && tmpInSize == old(tmpInSize) + srcSize && Holds(input + src)
          && mem[source..source + srcSize] == src
        else
          && srcPtr == maxBlockSize - old(tmpInSize) && Mid(src, source, srcPtr, false)
          && dstPtr <= BH_SIZE + maxBlockSize + prefs.CrcSize() && tmpInSize == 0
      ensures Callers() == old(Callers())
    {
      hide Callers, Holds, Mid, Emitted, Framed, Spent;
      SizesHeld(input);
      var sizeToCopy := maxBlockSize - tmpInSize;
      if sizeToCopy > srcSize {
        srcPtr, dstPtr := srcSize, 0;
        StayInTmp(source, srcSize, src);
        NothingWritten(dst);
      } else {
        srcPtr := sizeToCopy;
        dstPtr := FillTmp(source, sizeToCopy, dst, src);
      }
    }

    lemma SizesHeld(all: Bytes)
      requires Holds(all)
      ensures Framed() && tmpInSize < maxBlockSize
    {
    }

    lemma NothingWritten(dst: array<byte>)
      requires Framed()
      ensures Extends(Emitted(), dst[..0])
    {
      hide Emitted;
      assert Emitted() + dst[..0] == Emitted();
    }

    method StayInTmp(source: nat, srcSize: nat, ghost src: Bytes)
      requires Holds(input) && Source(source, srcSize) && src == mem[source..source + srcSize]
      requires tmpInSize + srcSize < maxBlockSize
      requires !prefs.autoFlush
      modifies `tmpInSize, mem
      ensures tmpInSize == old(tmpInSize) + srcSize && Holds(input + src) && mem[source..source + srcSize] == src
      ensures Callers() == old(Callers())
    {
      hide Callers, Content, Stream.DictHolds, ValidBlocks, Stream.Valid, Framed, StreamOk, DictInTmp, History, Holds;
      HeldParts();
      BlockSizePositive();
      ghost var was := mem[tmpIn..tmpIn + tmpInSize];
      BufferJoins(was, src);
      BufferSource(source, srcSize, src, was);
      Grow(srcSize, input + src, was + src);
    }

    /** What has been copied behind the bytes buffered now counts as buffered. */
    method Grow(n: nat, ghost all: Bytes, ghost rest: Bytes)
      requires cStage == 1 && Framed() && StreamOk() && BufferFits() && History() && DictInTmp()
      requires tmpInSize + n < maxBlockSize && !prefs.autoFlush && tmpIn + tmpInSize + n <= mem.Length
      requires mem[tmpIn..tmpIn + tmpInSize + n] == rest && Content(blocks) + rest == all
      modifies `tmpInSize
      ensures tmpInSize == old(tmpInSize) + n && Holds(all)
    {
      hide Content, Stream.DictHolds, ValidBlocks, Stream.Valid, Framed, StreamOk, DictInTmp, History, Holds;
      tmpInSize := tmpInSize + n;
      RestHeld(all, rest);
    }

    lemma HeldParts()
      requires Holds(input)
      ensures Framed() && StreamOk() && BufferFits() && History() && DictInTmp() && cStage == 1
      ensures tmpIn + tmpInSize <= mem.Length && Content(blocks) + mem[tmpIn..tmpIn + tmpInSize] == input
    {
    }

    lemma BufferJoins(was: Bytes, src: Bytes)
      requires Content(blocks) + was == input
      ensures src[..|src|] == src && Content(blocks) + (was + src) == input + src
    {
    }

    method FillTmp(source: nat, n: nat, dst: array<byte>, ghost src: Bytes) returns (dstPtr: nat)
      requires Holds(input) && Source(source, |src|) && src == mem[source..source + |src|] && dst != mem
      requires n <= |src| && tmpInSize + n == maxBlockSize && !prefs.autoFlush
      requires BH_SIZE + maxBlockSize + prefs.CrcSize() <= dst.Length
      modifies `blocks, `tmpIn, `tmpInSize, stream, stream.hashTable, mem, dst
      ensures Mid(src, source, n, false) && Framed() && tmpInSize == 0
      ensures dstPtr <= BH_SIZE + maxBlockSize + prefs.CrcSize() && dstPtr <= dst.Length
      ensures Extends(old(Emitted()), dst[..dstPtr])
      ensures Callers() == old(Callers())
    {
      hide Callers, Content, Stream.DictHolds, ValidBlocks, Stream.Valid, Framed, History, Mid, Emitted, DictInTmp,
           StreamOk;
      BlockSizePositive();
      ghost var was := mem[tmpIn..tmpIn + tmpInSize];
      BufferSource(source, n, src, was);
      assert Content(blocks) + (was + src[..n]) == Content(blocks) + was + src[..n];
      dstPtr := BlockFromTmp(maxBlockSize, source, dst, src, n);
      MidBounds(src, source, n, false);
    }
  
    /** The full blocks of the source, each written as it stands there. */
    method FullBlocks(dst: array<byte>, dstPtr0: nat, ghost src: Bytes, source: nat, srcSize: nat, srcPtr0: nat,
                      ghost i0: nat, ghost buffered: nat, ghost before: Bytes)
      returns (dstPtr: nat, srcPtr: nat, fromSrc: bool, ghost i: nat)
      requires Mid(src, source, srcPtr0, false) && Framed() && srcSize == |src| && dst != mem && buffered < maxBlockSize
      requires dstPtr0 <= dst.Length && Extends(before, dst[..dstPtr0]) && dstPtr0 <= Spent(i0)
      requires maxBlockSize * i0 == buffered + srcPtr0
      requires CompressBoundInternal(prefs, srcSize, buffered) <= dst.Length
      modifies `blocks, stream, stream.hashTable, dst
      ensures Mid(src, source, srcPtr, fromSrc) && Framed() && srcSize - srcPtr < maxBlockSize
      ensures dstPtr <= dst.Length && Extends(before, dst[..dstPtr]) && dstPtr <= Spent(i)
      ensures maxBlockSize * i == buffered + srcPtr
      ensures !fromSrc ==> srcPtr == srcPtr0 && dstPtr == dstPtr0
    {
      hide Mid, Framed, Emitted, Spent, CompressBoundInternal, EmitFrameBlock;
      dstPtr, srcPtr, fromSrc, i := dstPtr0, srcPtr0, false, i0;
      BlockSizePositive();
      MidBounds(src, source, srcPtr, fromSrc);
      while srcSize - srcPtr >= maxBlockSize
        invariant Mid(src, source, srcPtr, fromSrc) && Framed() && srcPtr <= srcSize
        invariant dstPtr <= dst.Length && Extends(before, dst[..dstPtr]) && dstPtr <= Spent(i)
        invariant maxBlockSize * i == buffered + srcPtr
        invariant !fromSrc ==> srcPtr == srcPtr0 && dstPtr == dstPtr0
      {
        ghost var b;
        var written;
        RoomForBlock(srcSize, buffered, i, maxBlockSize);
        SpentMore(i);
        ghost var out := dst[..dstPtr];
        written, b := BlockFromSource(dst, dstPtr, src, source, srcPtr, maxBlockSize, fromSrc);
        ExtendsMore(before, out, EmitFrameBlock(b, prefs.blockChecksum, hash));
        dstPtr, srcPtr, fromSrc, i := dstPtr + written, srcPtr + maxBlockSize, true, i + 1;
        MidBounds(src, source, srcPtr, fromSrc);
      }
    }

    lemma MidBounds(src: Bytes, source: nat, srcPtr: nat, fromSrc: bool)
      requires Mid(src, source, srcPtr, fromSrc)
      ensures Framed() && srcPtr <= |src| && tmpInSize == 0
    {
    }

    lemma RoomForBlock(srcSize: nat, buffered: nat, i: nat, n: nat)
      requires Framed() && buffered < maxBlockSize && n > 0
      requires maxBlockSize * i + n <= srcSize + buffered
      requires n == maxBlockSize || (n < maxBlockSize && prefs.autoFlush && maxBlockSize * i + n == srcSize + buffered)
      ensures
        Spent(i) + BH_SIZE + prefs.CrcSize() + n + prefs.FrameEnd() <= CompressBoundInternal(prefs, srcSize, buffered)
    {
      hide ValidBlocks, CompressBoundInternal;
      BoundRoom(prefs, srcSize, buffered, i, n);
    }
  
    /** With `autoFlush`, the rest of the source makes a smaller block. */
    method FlushRest(dst: array<byte>, dstPtr0: nat, ghost src: Bytes, source: nat, srcSize: nat, srcPtr: nat,
                     fromSrc: bool, ghost i: nat, ghost buffered: nat, ghost before: Bytes)
      returns (dstPtr: nat)
      requires Mid(src, source, srcPtr, fromSrc) && Framed() && srcSize == |src| && dst != mem
      requires buffered < maxBlockSize
      requires prefs.autoFlush && srcPtr < srcSize < srcPtr + maxBlockSize
      requires dstPtr0 <= dst.Length && Extends(before, dst[..dstPtr0]) && dstPtr0 <= Spent(i)
      requires maxBlockSize * i == buffered + srcPtr
      requires CompressBoundInternal(prefs, srcSize, buffered) <= dst.Length
      modifies `blocks, stream, stream.hashTable, dst
      ensures Mid(src, source, srcSize, true) && Framed()
      ensures dstPtr <= dst.Length && Extends(before, dst[..dstPtr])
      ensures dstPtr <= CompressBoundInternal(prefs, srcSize, buffered)
    {
      hide Mid, Framed, Emitted, Spent, CompressBoundInternal, EmitFrameBlock;
      ghost var b;
      var written;
      RoomForBlock(srcSize, buffered, i, srcSize - srcPtr);
      ghost var out := dst[..dstPtr0];
      written, b := BlockFromSource(dst, dstPtr0, src, source, srcPtr, srcSize - srcPtr, fromSrc);
      ExtendsMore(before, out, EmitFrameBlock(b, prefs.blockChecksum, hash));
      dstPtr := dstPtr0 + written;
      MidBounds(src, source, srcSize, true);
    }

    /** `LZ4F_localSaveDict`: the end of the history moves to the front of the internal buffer. */
    method LocalSaveDict(ghost src: Bytes, source: nat, ghost srcPtr: nat, ghost fromSrc: bool)
      requires Mid(src, source, srcPtr, fromSrc) && prefs.linked
      modifies `tmpIn, stream, mem
      ensures Mid(src, source, srcPtr, false) && tmpIn <= tmpBuff + KB64
      ensures Callers() == old(Callers())
    {
      hide Callers, Content, ValidBlocks, Stream.DictHolds;
      BlockSizePositive();
      ghost var m := mem[..];
      BufferAtLeast();
      CallersAre();
      var realDictSize := stream.SaveDict(mem, tmpBuff, KB64, Content(blocks));
      CallersKept(m, tmpBuff, realDictSize);
      tmpIn := tmpBuff + realDictSize;
      assert mem[source..source + |src|] == m[source..source + |src|];
    }

    lemma BufferAtLeast()
      requires Framed() && TmpRoom() && prefs.linked
      ensures KB64 <= maxBufferSize
    {
    }

    /** After a call: history that is in the source, or too far up in the internal buffer, is moved. */
    method KeepWithinLimits(ghost src: Bytes, source: nat, ghost srcPtr: nat, fromSrc: bool)
      requires Mid(src, source, srcPtr, fromSrc)
      modifies `tmpIn, stream, mem
      ensures Mid(src, source, srcPtr, false) && BufferFits()
      ensures Callers() == old(Callers())
    {
      hide Callers, Content, ValidBlocks, Stream.DictHolds, Mid;
      MidRoom(src, source, srcPtr, fromSrc);
      if prefs.linked && fromSrc {
        LocalSaveDict(src, source, srcPtr, fromSrc);
        MidRoom(src, source, srcPtr, false);
      } else if !prefs.linked {
        MidUnlinked(src, source, srcPtr, fromSrc);
      }
      if !prefs.autoFlush && tmpIn + maxBlockSize > tmpBuff + maxBufferSize {
        LocalSaveDict(src, source, srcPtr, false);
        MidRoom(src, source, srcPtr, false);
      }
    }

    lemma MidRoom(src: Bytes, source: nat, srcPtr: nat, fromSrc: bool)
      requires Mid(src, source, srcPtr, fromSrc)
      ensures TmpRoom() && tmpInSize == 0 && maxBlockSize > 1
    {
      hide ValidBlocks, Content;
    }

    lemma MidUnlinked(src: Bytes, source: nat, srcPtr: nat, fromSrc: bool)
      requires Mid(src, source, srcPtr, fromSrc) && !prefs.linked
      ensures Mid(src, source, srcPtr, false)
    {
    }

    /** What is left of the source, less than a block, is buffered. */
    method BufferRest(ghost src: Bytes, source: nat, srcSize: nat, srcPtr: nat)
      requires Mid(src, source, srcPtr, false) && BufferFits() && srcSize == |src| && srcSize - srcPtr < maxBlockSize
      requires prefs.autoFlush ==> srcPtr == srcSize
      modifies `tmpInSize, mem
      ensures Holds(input + src) && Framed() && mem[source..source + srcSize] == src
      ensures srcPtr == srcSize ==> tmpInSize == old(tmpInSize)
      ensures Callers() == old(Callers())
    {
      hide Callers, Content, ValidBlocks, Stream.DictHolds, Stream.Valid, Framed, Holds, StreamOk, DictInTmp;
      BlockSizePositive();
      ghost var rest := src[srcPtr..];
      assert Content(blocks) + rest == input + src by { assert src[..srcPtr] + rest == src; }
      if srcPtr < srcSize {
        CopyRest(src, source, srcPtr, srcSize - srcPtr);
        Grow(srcSize - srcPtr, input + src, rest);
      } else {
        assert mem[tmpIn..tmpIn] == [];
        RestHeld(input + src, rest);
      }
    }

    lemma RestHeld(all: Bytes, rest: Bytes)
      requires cStage == 1 && Framed() && StreamOk() && BufferFits() && History() && DictInTmp()
      requires tmpIn + tmpInSize <= mem.Length && mem[tmpIn..tmpIn + tmpInSize] == rest && Content(blocks) + rest == all
      ensures Holds(all)
    {
    }

    method CopyRest(ghost src: Bytes, source: nat, srcPtr: nat, n: nat)
      requires Framed() && History() && DictInTmp() && tmpBuff <= tmpIn
      requires tmpIn + n <= tmpBuff + MAX_BUFFER <= mem.Length
      requires Source(source, |src|) && mem[source..source + |src|] == src && srcPtr + n == |src|
      modifies mem
      ensures History() && mem[source..source + |src|] == src && mem[tmpIn..tmpIn + n] == src[srcPtr..]
      ensures Callers() == old(Callers())
    {
      hide Callers, Content, ValidBlocks, Stream.DictHolds;
      ghost var m := mem[..];
      SourceSlice(m, source, src, srcPtr, n);
      BufferMore(source + srcPtr, n, tmpIn);
      SourceKept(m, mem[..], tmpIn, n, source, src);
    }

    lemma HoldsMid(src: Bytes, source: nat)
      requires Holds(input) && tmpInSize == 0 && Source(source, |src|) && mem[source..source + |src|] == src
      ensures Mid(src, source, 0, false)
    {
      hide Content, ValidBlocks, Stream.DictHolds, Stream.Valid, Framed;
      assert Content(blocks) + mem[tmpIn..tmpIn + tmpInSize] == Content(blocks);
      assert input + src[..0] == input;
    }

    /** The rest of a call, once nothing is buffered. */
    method UpdateBlocks(dst: array<byte>, dstPtr0: nat, ghost src: Bytes, source: nat, srcSize: nat, srcPtr0: nat,
                        ghost i0: nat, ghost buffered: nat, ghost before: Bytes)
      returns (dstPtr: nat)
      requires Mid(src, source, srcPtr0, false) && Framed() && srcSize == |src| && dst != mem && buffered < maxBlockSize
      requires dstPtr0 <= dst.Length && Extends(before, dst[..dstPtr0]) && dstPtr0 <= Spent(i0)
      requires maxBlockSize * i0 == buffered + srcPtr0
      requires CompressBoundInternal(prefs, srcSize, buffered) <= dst.Length
      modifies `blocks, `tmpIn, `tmpInSize, stream, stream.hashTable, mem, dst
      ensures Holds(input + src) && Framed() && dstPtr <= dst.Length && Extends(before, dst[..dstPtr])
      ensures dstPtr <= CompressBoundInternal(prefs, srcSize, buffered)
      ensures mem[source..source + srcSize] == src
      ensures Callers() == old(Callers())
    {
      hide Callers, Mid, Framed, Emitted, Spent, CompressBoundInternal, BufferFits, Holds;
      var srcPtr, fromSrc;
      ghost var i;
      dstPtr, srcPtr, fromSrc, i := FullBlocks(dst, dstPtr0, src, source, srcSize, srcPtr0, i0, buffered, before);
      MidBounds(src, source, srcPtr, fromSrc);
      SpentWithin(srcSize, buffered, i, srcPtr);
      if prefs.autoFlush && srcPtr < srcSize {
        dstPtr := FlushRest(dst, dstPtr, src, source, srcSize, srcPtr, fromSrc, i, buffered, before);
        srcPtr, fromSrc := srcSize, true;
      }
      KeepWithinLimits(src, source, srcPtr, fromSrc);
      BufferRest(src, source, srcSize, srcPtr);
    }

    lemma SpentWithin(srcSize: nat, buffered: nat, i: nat, srcPtr: nat)
      requires Framed() && buffered < maxBlockSize && maxBlockSize * i == buffered + srcPtr && srcPtr <= srcSize
      ensures Spent(i) <= CompressBoundInternal(prefs, srcSize, buffered)
    {
      hide ValidBlocks;
      BoundWithin(prefs, srcSize, buffered, i);
    }

    /** Checksum and total size of what a call has received. */
    method Count(bytes: Bytes)
      requires Counted()
      modifies `xxh, `totalInSize, `input
      ensures Counted() && input == old(input) + bytes
    {
      if prefs.contentChecksum { xxh := xxh + bytes; }
      totalInSize := (totalInSize + |bytes|) % 0x1_0000_0000_0000_0000;
      input := input + bytes;
    }

    /**
      `LZ4F_compressUpdate`. All of the source is taken: what is written extends the frame by whole blocks, and
      blocks written followed by what stays buffered are all input received. What is written never exceeds
      `LZ4F_compressBound`, which is also all the room that is asked for.
    */
    method CompressUpdate(source: nat, srcSize: nat, dst: array<byte>) returns (error: Option<CError>, written: nat)
      requires cStage == 1 ==> Open()
      requires Source(source, srcSize) && dst != mem
      modifies this, stream, stream.hashTable, mem, dst
      ensures error == None <==> old(cStage) == 1 && old(CompressBoundInternal(prefs, srcSize, tmpInSize)) <= dst.Length
      ensures error == None ==>
        && Open()
        && Framed()
        && cStage == 1
        && prefs == old(prefs)
        && input == old(input) + old(mem[source..source + srcSize])
        && written <= old(CompressBoundInternal(prefs, srcSize, tmpInSize)) && written <= dst.Length
        && Emitted() == old(Emitted()) + dst[..written]
      ensures error != None ==> written == 0 && (old(cStage) == 1 ==> Open())
      ensures mem[source..source + srcSize] == old(mem[source..source + srcSize])
      ensures old(cStage) == 1 ==> Callers() == old(Callers())
    {
      hide Callers, Emitted, Framed, CompressBoundInternal, Mid, Spent, Holds;
      written := 0;
      if cStage != 1 { return Some(StateUninitialized), written; }
      SizesHeld(input);
      if dst.Length < CompressBoundInternal(prefs, srcSize, tmpInSize) { return Some(DstTooSmall), written; }
      ghost var src := mem[source..source + srcSize];
      written := TakeSource(source, srcSize, dst, src);
      Count(mem[source..source + srcSize]);
      error := None;
    }

    method TakeSource(source: nat, srcSize: nat, dst: array<byte>, ghost src: Bytes) returns (written: nat)
      requires Open() && Source(source, srcSize) && dst != mem && src == mem[source..source + srcSize]
      requires CompressBoundInternal(prefs, srcSize, tmpInSize) <= dst.Length
      modifies `blocks, `tmpIn, `tmpInSize, stream, stream.hashTable, mem, dst
      ensures Holds(input + src) && Framed() && mem[source..source + srcSize] == src
      ensures written <= dst.Length && written <= old(CompressBoundInternal(prefs, srcSize, tmpInSize))
      ensures Extends(old(Emitted()), dst[..written])
      ensures Callers() == old(Callers())
    {
      hide Callers, Emitted, Framed, CompressBoundInternal, Mid, Spent, Holds;
      SizesHeld(input);
      ghost var before, buffered := Emitted(), tmpInSize;
      SpentMore(0);
      var srcPtr := 0;
      written := 0;
      if tmpInSize > 0 {
        Buffering();
        if tmpInSize + srcSize >= maxBlockSize { RoomForBlock(srcSize, buffered, 0, maxBlockSize); }
        srcPtr, written := CompleteTmp(source, srcSize, dst, src);
        if tmpInSize > 0 { return; }
        FirstBlockDone(src, source, srcPtr);
        written := UpdateBlocks(dst, written, src, source, srcSize, srcPtr, 1, buffered, before);
      } else {
        NothingWritten(dst);
        HoldsMid(src, source);
        written := UpdateBlocks(dst, 0, src, source, srcSize, 0, 0, 0, before);
      }
    }

    lemma Buffering()
      requires Holds(input) && tmpInSize > 0
      ensures !prefs.autoFlush
    {
    }

    lemma FirstBlockDone(src: Bytes, source: nat, srcPtr: nat)
      requires Mid(src, source, srcPtr, false)
      ensures tmpInSize == 0 && Framed() && Spent(1) == BH_SIZE + prefs.CrcSize() + maxBlockSize
    {
      SpentMore(0);
    }
  
    // -------------------------------------------------------------- flush and end

    /** `LZ4F_flush`: what is buffered becomes a block. */
    method Flush(dst: array<byte>) returns (error: Option<CError>, written: nat)
      requires (cStage == 1 ==> Open()) && dst != mem
      modifies `blocks, `tmpIn, `tmpInSize, stream, stream.hashTable, mem, dst
      ensures old(cStage) == 1 ==>
        (error == None <==> old(tmpInSize) == 0 || old(tmpInSize) + BH_SIZE + BF_SIZE <= dst.Length)
      ensures old(cStage) == 1 ==>
        Open() && Framed() && written <= dst.Length && Emitted() == old(Emitted()) + dst[..written]
      ensures old(cStage) == 1 && error == None ==>
        tmpInSize == 0 && written <= if old(tmpInSize) > 0 then BH_SIZE + prefs.CrcSize() + old(tmpInSize) else 0
      ensures error != None ==> written == 0 && (error == Some(DstTooSmall) || error == Some(StateUninitialized))
      ensures error == Some(StateUninitialized) ==> old(cStage) != 1
      ensures old(tmpInSize) == 0 ==> error == None && written == 0
      ensures old(cStage) == 1 ==> Callers() == old(Callers())
    {
      hide Callers, Emitted, Framed, Mid, Holds;
      written, error := 0, None;
      if cStage == 1 {
        SizesHeld(input);
        NothingWritten(dst);
      }
      if tmpInSize == 0 { return; }
      if cStage != 1 { return Some(StateUninitialized), 0; }
      if dst.Length < tmpInSize + BH_SIZE + BF_SIZE { return Some(DstTooSmall), 0; }
      written := FlushTmp(dst);
    }

    method FlushTmp(dst: array<byte>) returns (written: nat)
      requires Holds(input) && tmpInSize > 0 && BH_SIZE + tmpInSize + prefs.CrcSize() <= dst.Length && dst != mem
      modifies `blocks, `tmpIn, `tmpInSize, stream, stream.hashTable, mem, dst
      ensures Holds(input) && tmpInSize == 0 && Framed()
      ensures written <= BH_SIZE + old(tmpInSize) + prefs.CrcSize() && written <= dst.Length
      ensures Extends(old(Emitted()), dst[..written])
      ensures Callers() == old(Callers())
    {
      hide Callers, Emitted, Framed, Mid, Holds, Extends, StreamOk, History, DictInTmp, TmpRoom, BufferFits, Content;
      BufferedHere();
      written := BlockFromTmp(tmpInSize, 0, dst, [], 0);
      MidBounds([], 0, 0, false);
      KeepWithinLimits([], 0, 0, false);
      BufferRest([], 0, 0, 0);
      NothingMore();
    }

    lemma NothingMore()
      ensures input + [] == input
    {
    }

    lemma BufferedHere()
      requires Holds(input) && tmpInSize > 0
      ensures Framed() && StreamOk() && History() && DictInTmp() && TmpRoom() && cStage == 1
      ensures !prefs.autoFlush && tmpIn + maxBlockSize <= tmpBuff + maxBufferSize && tmpInSize <= maxBlockSize
      ensures tmpIn + tmpInSize <= mem.Length && Content(blocks) + mem[tmpIn..tmpIn + tmpInSize] == input + [][..0]
      ensures Source(0, 0) && mem[0..0] == []
    {
      hide Content, ValidBlocks, Stream.DictHolds, Stream.Valid, Framed;
      BlockSizePositive();
    }
  
    /** `LZ4F_compressEnd`: what was buffered, the end mark and the checksum. What has been written since the frame
        began is then a well-formed frame whose content is all of the input. Room for `LZ4F_compressBound(0)` bytes
        is always enough. */
    method CompressEnd(dst: array<byte>) returns (error: Option<CError>, written: nat, ghost fr: Frame)
      requires cStage == 1 && Open() && dst != mem
      modifies this, stream, stream.hashTable, mem, dst
      ensures error == None ==>
        && cStage == 0 && StreamOk() && written <= dst.Length && written <= CompressBound(old(prefs), 0)
        && fr == Lz4Frame(old(prefs).Header(), blocks) && Content(blocks) == old(input)
        && ValidBlocks(old(prefs).Header(), blocks) && Emittable(fr)
        && old(Emitted()) + dst[..written] == EmitFrame(fr, hash)
        && (|old(input)| < 0x1_0000_0000_0000_0000 ==> ValidFrame(fr, []))
      ensures written <= dst.Length && error != Some(StateUninitialized)
      ensures dst.Length >= CompressBound(old(prefs), 0) ==> error != Some(DstTooSmall)
      ensures error == Some(FrameSizeWrong) ==>
        old(prefs.contentSize) > 0 && old(prefs.contentSize) != |old(input)| % 0x1_0000_0000_0000_0000
      ensures error == None && old(prefs.contentSize) > 0 ==>
        old(prefs.contentSize) == |old(input)| % 0x1_0000_0000_0000_0000
      ensures old(cStage) == 1 ==> Callers() == old(Callers())
    {
      hide Callers, Emitted, Framed, CompressBound, Holds, LE32, EmitFrame, ValidFrame, ValidBlocks, Content;
      EndRoom();
      ghost var before := Emitted();
      fr := Lz4Frame(prefs.Header(), blocks);
      error, written := Flush(dst);
      if error != None { return; }
      fr := Lz4Frame(prefs.Header(), blocks);
      AllWritten(before + dst[..written]);
      Closing();
      ghost var out := dst[..written];
      var ok;
      ok, written := WriteEnd(dst, written);
      if !ok { return Some(DstTooSmall), written, fr; }
      FrameClosed(before, out, LE32(0) + Crc(prefs.contentChecksum, input, hash), dst[..written]);
      cStage, maxBufferSize := 0, 0;
      if prefs.contentSize > 0 {
        if prefs.contentSize != totalInSize { return Some(FrameSizeWrong), written, fr; }
      }
    }

    /** With nothing buffered, only the end of the frame is missing. */
    lemma AllWritten(soFar: Bytes)
      requires Open() && tmpInSize == 0 && Emitted() == soFar
      ensures ValidBlocks(prefs.Header(), blocks) && Content(blocks) == input && StreamOk()
      ensures var fr := Lz4Frame(prefs.Header(), blocks);
        && Emittable(fr) && EmitFrame(fr, hash) == soFar + (LE32(0) + Crc(prefs.contentChecksum, input, hash))
        && ((prefs.contentSize > 0 ==> prefs.contentSize == |input|) ==> ValidFrame(fr, []))
    {
      hide Encodes, EmitHeader, EmitBlocks, Stream.Valid, Stream.DictHolds;
      assert Content(blocks) + mem[tmpIn..tmpIn] == Content(blocks);
      ValidBlocksSized(prefs.Header(), blocks);
    }

    static lemma FrameClosed(before: Bytes, out: Bytes, last: Bytes, now: Bytes)
      requires now == out + last
      ensures before + now == before + out + last
    {
    }

    /** The end mark and the checksum, as far as there is room. */
    method WriteEnd(dst: array<byte>, written0: nat) returns (ok: bool, written: nat)
      requires written0 <= dst.Length && (prefs.contentChecksum ==> xxh == input)
      modifies dst
      ensures written <= dst.Length && (ok <==> written0 + prefs.FrameEnd() <= dst.Length)
      ensures ok ==> written == written0 + prefs.FrameEnd()
      ensures ok ==> dst[..written] == old(dst[..written0]) + (LE32(0) + Crc(prefs.contentChecksum, input, hash))
    {
      hide LE32;
      ghost var out := dst[..written0];
      written := written0;
      var dstCapacity := dst.Length - written;
      if dstCapacity < 4 { return false, written; }
      Append(dst, written, LE32(0));
      written := written + 4;
      if prefs.contentChecksum {
        if dstCapacity < 8 { return false, written; }
        Append(dst, written, LE32(hash(xxh)));
        written := written + 4;
        Assoc(out, LE32(0), LE32(hash(xxh)));
      } else {
        assert LE32(0) + [] == LE32(0);
      }
      ok := true;
    }

    lemma Closing()
      requires Open()
      ensures Counted() && StreamOk()
    {
    }

    /** A destination of `LZ4F_compressBound` bytes is always large enough. */
    lemma Room(srcSize: nat)
      requires Open()
      ensures prefs.Valid() && Framed() && cStage == 1
      ensures CompressBoundInternal(prefs, srcSize, tmpInSize) <= CompressBound(prefs, srcSize)
    {
      hide CompressBound, ValidBlocks, CompressBoundInternal;
      BoundCovers(prefs, srcSize, tmpInSize);
    }

    lemma EndRoom()
      requires Open()
      ensures prefs.Valid() && Framed()
      ensures tmpInSize > 0 ==> tmpInSize + BH_SIZE + BF_SIZE <= CompressBound(prefs, 0)
      ensures
        (if tmpInSize > 0 then BH_SIZE + prefs.CrcSize() + tmpInSize else 0) + prefs.FrameEnd()
        <= CompressBound(prefs, 0)
    {
      hide CompressBound, ValidBlocks;
      BoundForEnd(prefs, tmpInSize);
    }
  
    // -------------------------------------------------------------- begin

    /** The internal buffer grows when the frame needs a larger one. */
    method PrepareBuffer()
      requires prefs.Valid() && maxBlockSize == BlockSize(prefs.Id()) && maxBufferSize <= MAX_BUFFER
      modifies `maxBufferSize, `tmpIn, `tmpInSize
      ensures tmpIn == tmpBuff && tmpInSize == 0 && BufferFits()
    {
      var requiredBuffSize :=
        if prefs.autoFlush then (if prefs.linked then KB64 else 0)
        else maxBlockSize + if prefs.linked then KB128 else 0;
      if maxBufferSize < requiredBuffSize { maxBufferSize := requiredBuffSize; }
      tmpIn, tmpInSize := tmpBuff, 0;
    }

    /** The frame header. */
    method WriteHeader(dst: array<byte>) returns (written: nat)
      requires prefs.Valid() && MAX_FH_SIZE <= dst.Length
      modifies dst
      ensures written == HeaderSize(prefs.Header()) <= dst.Length && dst[..written] == EmitHeader(prefs.Header(), hash)
    {
      hide LE32, LE64, HeaderChecksum;
      ghost var h := prefs.Header();
      ghost var size: Bytes := if prefs.contentSize > 0 then LE64(prefs.contentSize) else [];
      ghost var id: Bytes := if prefs.dictID > 0 then LE32(prefs.dictID) else [];
      var flags: Bytes := [Flg(prefs.Header()), 16 * prefs.Id()];
      Append(dst, 0, LE32(MAGIC));
      Append(dst, 4, flags);
      written := 6;
      if prefs.contentSize > 0 {
        Append(dst, written, LE64(prefs.contentSize));
        written := written + 8;
      }
      if prefs.dictID > 0 {
        Append(dst, written, LE32(prefs.dictID));
        written := written + 4;
      }
      DescriptorWritten(LE32(MAGIC), flags, size, id, dst[..written]);
      Append(dst, written, [HeaderChecksum(dst[4..written], hash)]);
      written := written + 1;
    }

    static lemma DescriptorWritten(magic: Bytes, flags: Bytes, size: Bytes, id: Bytes, now: Bytes)
      requires |magic| == 4 && now == magic + flags + size + id
      ensures now == magic + (flags + size + id) && now[4..] == flags + size + id
    {
    }

    /** `LZ4F_compressBegin`: a new frame; the block compressor is reset without clearing its table. */
    method CompressBegin(preferences: Prefs, dst: array<byte>) returns (error: Option<CError>, written: nat)
      requires StreamOk() && preferences.Valid() && tmpBuff + MAX_BUFFER <= mem.Length && maxBufferSize <= MAX_BUFFER
      requires dst != mem
      modifies this, stream, stream.hashTable, dst
      ensures error == None <==> dst.Length >= MAX_FH_SIZE
      ensures error == None ==>
        && Open() && Framed() && cStage == 1 && prefs == preferences && input == [] && tmpInSize == 0
        && written <= dst.Length && dst[..written] == Emitted()
    {
      hide Emitted, Open;
      if dst.Length < MAX_FH_SIZE { return Some(DstTooSmall), 0; }
      ResetFrame(preferences);
      written := WriteHeader(dst);
      if prefs.contentSize > 0 { totalInSize := 0; }
      cStage := 1;
      error := None;
      Started();
    }

    method ResetFrame(preferences: Prefs)
      requires StreamOk() && preferences.Valid() && maxBufferSize <= MAX_BUFFER
      modifies this, stream, stream.hashTable
      ensures prefs == preferences && maxBlockSize == BlockSize(prefs.Id()) && xxh == input == [] && blocks == []
      ensures tmpIn == tmpBuff && tmpInSize == 0 && BufferFits()
      ensures StreamOk() && (prefs.linked ==> stream.StreamMode() && stream.dictSize == 0 && stream.dictionary == 0)
    {
      prefs := preferences;
      maxBlockSize := BlockSize(prefs.Id());
      PrepareBuffer();
      xxh, input, blocks := [], [], [];
      if prefs.linked { stream.PrepareTable(0, BlockCompressor.ByU32); }
    }

    lemma Started()
      requires cStage == 1 && prefs.Valid() && maxBlockSize == BlockSize(prefs.Id()) && xxh == input == []
      requires blocks == []
      requires tmpIn == tmpBuff && tmpInSize == 0 && BufferFits() && tmpBuff + MAX_BUFFER <= mem.Length
      requires StreamOk() && (prefs.linked ==> stream.StreamMode() && stream.dictSize == 0 && stream.dictionary == 0)
      requires prefs.contentSize > 0 ==> totalInSize == 0
      ensures Open() && Emitted() == EmitHeader(prefs.Header(), hash)
    {
      hide EmitHeader, Stream.Valid;
      assert mem[tmpIn..tmpIn] == [];
    }
  }

  // ---------------------------------------------------------------- whole runs

  predicate Within(size: nat, sources: seq<(nat, nat)>) {
    forall i :: 0 <= i < |sources| ==> sources[i].0 + sources[i].1 <= size
  }

  /** All sources are in memory, apart from the internal buffer. */
  ghost predicate Apart(c: Cctx, sources: seq<(nat, nat)>) {
    Within(c.mem.Length, sources) && forall i :: 0 <= i < |sources| ==> c.Source(sources[i].0, sources[i].1)
  }

  /** The bytes of the sources, one after the other. */
  function Gathered(mem: Bytes, sources: seq<(nat, nat)>): Bytes
    requires Within(|mem|, sources)
  {
    if |sources| == 0 then []
    else
      var (source, size) := sources[|sources| - 1];
      Gathered(mem, sources[..|sources| - 1]) + mem[source..source + size]
  }

  lemma GatheredNext(mem: Bytes, sources: seq<(nat, nat)>, n: nat)
    requires n < |sources| && Within(|mem|, sources)
    ensures Gathered(mem, sources[..n + 1])
      == Gathered(mem, sources[..n]) + mem[sources[n].0..sources[n].0 + sources[n].1]
  {
    assert sources[..n + 1][..n] == sources[..n];
  }

  lemma GatheredNone(mem: Bytes, sources: seq<(nat, nat)>)
    requires Within(|mem|, sources)
    ensures Gathered(mem, sources[..0]) == []
  {
  }

  /** What lies outside the internal buffer is as it was. */
  lemma SourceUntouched(before: Bytes, after: Bytes, lo: nat, hi: nat, source: nat, size: nat)
    requires lo <= hi <= |before| == |after| && Cctx.Around(before, lo, hi) == Cctx.Around(after, lo, hi)
    requires source + size <= |before| && (source + size <= lo || hi <= source)
    ensures after[source..source + size] == before[source..source + size]
  {
    var n := |before|;
    if source + size <= lo {
      SliceOfSlice(before, 0, lo, source, source + size);
      SliceOfSlice(after, 0, lo, source, source + size);
      assert before[0..lo] == before[..lo] && after[0..lo] == after[..lo];
    } else {
      SliceOfSlice(before, hi, n, source - hi, source - hi + size);
      SliceOfSlice(after, hi, n, source - hi, source - hi + size);
      assert before[hi..n] == before[hi..] && after[hi..n] == after[hi..];
    }
  }

  /**
    A whole frame: the input in any pieces, each of them from anywhere in memory, with a flush after any of them. What
    comes out is a well-formed frame of exactly those bytes; it fails exactly when another size was declared.
  */
  method CompressInPieces(c: Cctx, preferences: Prefs, sources: seq<(nat, nat)>, flush: seq<bool>)
    returns (error: Option<CError>, input: Bytes, frame: Bytes, ghost fr: Frame)
    requires |flush| == |sources| && preferences.Valid()
    requires c.StreamOk() && c.tmpBuff + MAX_BUFFER <= c.mem.Length && c.maxBufferSize <= MAX_BUFFER
    requires Apart(c, sources)
    modifies c, c.stream, c.stream.hashTable, c.mem
    ensures input == Gathered(old(c.mem[..]), sources) && c.Callers() == old(c.Callers())
    ensures error == None || error == Some(FrameSizeWrong)
    ensures error == None <==>
      preferences.contentSize == 0 || preferences.contentSize == |input| % 0x1_0000_0000_0000_0000
    ensures error == None ==>
      && c.StreamOk() && Emittable(fr) && fr.Lz4Frame? && frame == EmitFrame(fr, c.hash) && FrameContent(fr) == input
      && (|input| < 0x1_0000_0000_0000_0000 ==> ValidFrame(fr, []))
  {
    hide Cctx.Open, Cctx.StreamOk, Cctx.Emitted, EmitFrame, ValidFrame, Content, CompressBound, CompressBoundInternal,
         Cctx.Framed;
    ghost var memory, lo, hi := c.mem[..], c.tmpBuff, c.tmpBuff + MAX_BUFFER;
    c.CallersAre();
    hide Cctx.Callers, Gathered, Cctx.Around;
    input, frame := [], [];
    fr := Lz4Frame(preferences.Header(), []);
    assert input == Gathered(memory, sources[..0]) by { GatheredNone(memory, sources); }
    var dst := new byte[MAX_FH_SIZE];
    var written;
    error, written := c.CompressBegin(preferences, dst);
    frame := dst[..written];
    var i := 0;
    while i < |sources|
      invariant 0 <= i <= |sources| && c.Open() && c.Framed() && c.cStage == 1 && c.prefs == preferences
      invariant c.input == input == Gathered(memory, sources[..i]) && c.Emitted() == frame
      invariant c.Callers() == old(c.Callers())
    {
      var (source, size) := sources[i];
      c.CallersAre();
      SourceUntouched(memory, c.mem[..], lo, hi, source, size);
      GatheredNext(memory, sources, i);
      var out := CompressPiece(c, source, size, flush[i]);
      frame := frame + out;
      input := input + c.mem[source..source + size];
      i := i + 1;
    }
    dst := new byte[CompressBound(preferences, 0)];
    error, written, fr := c.CompressEnd(dst);
    assert sources[..|sources|] == sources;
    assert error != None ==> error.value.DstTooSmall? || error.value.StateUninitialized? || error.value.FrameSizeWrong?;
    frame := frame + dst[..written];
  }

  /** One piece of the input, with a flush if wanted, into destinations that are just large enough. */
  method CompressPiece(c: Cctx, source: nat, size: nat, flush: bool) returns (out: Bytes)
    requires c.Open() && c.Framed() && c.cStage == 1 && c.Source(source, size) && c.tmpBuff + MAX_BUFFER <= c.mem.Length
    modifies c, c.stream, c.stream.hashTable, c.mem
    ensures c.Open() && c.Framed() && c.cStage == 1 && c.prefs == old(c.prefs) && c.Callers() == old(c.Callers())
    ensures c.mem[source..source + size] == old(c.mem[source..source + size])
    ensures c.input == old(c.input) + c.mem[source..source + size] && c.Emitted() == old(c.Emitted()) + out
  {
    hide Cctx.Open, Cctx.StreamOk, Cctx.Emitted, CompressBound, CompressBoundInternal, Cctx.Framed, Cctx.Callers;
    ghost var m := c.mem[..];
    c.Room(size);
    c.CallersAre();
    var dst := new byte[CompressBound(c.prefs, size)];
    var error, written := c.CompressUpdate(source, size, dst);
    out := dst[..written];
    if flush {
      c.Room(0);
      dst := new byte[CompressBound(c.prefs, 0)];
      error, written := c.Flush(dst);
      out := out + dst[..written];
      c.CallersAre();
      SourceUntouched(m, c.mem[..], c.tmpBuff, c.tmpBuff + MAX_BUFFER, source, size);
      assert c.mem[..][source..source + size] == c.mem[source..source + size];
      assert m[source..source + size] == old(c.mem[source..source + size]);
    }
  }

  /**
    The frame layer loses nothing: what the compressor was given, in whatever pieces, comes out of the decoder,
    however that is called; the run is complete as soon as all of the frame has been consumed.
  */
  method RoundTrip(c: Cctx, d: FrameDecoder.Dctx, preferences: Prefs, sources: seq<(nat, nat)>, flush: seq<bool>,
                   pieces: seq<nat>, rooms: seq<nat>, skips: seq<bool>)
    returns (error: Option<CError>, input: Bytes, frame: Bytes, output: Bytes, used: nat, complete: bool,
             ghost fr: Frame)
    requires |flush| == |sources| && |pieces| == |rooms| == |skips| && preferences.Valid()
    requires c.StreamOk() && c.tmpBuff + MAX_BUFFER <= c.mem.Length && c.maxBufferSize <= MAX_BUFFER
    requires Apart(c, sources)
    requires d.Buffers() && d.Complete() && d.hash == c.hash && c.mem != d.header && c.mem != d.tmpIn
    requires c.mem != d.tmpOutBuffer
    modifies c, c.stream, c.stream.hashTable, c.mem, d, d.header, d.tmpIn, d.tmpOutBuffer
    ensures input == Gathered(old(c.mem[..]), sources)
    ensures error == None <==>
      preferences.contentSize == 0 || preferences.contentSize == |input| % 0x1_0000_0000_0000_0000
    ensures error == None ==> Emittable(fr) && frame == EmitFrame(fr, c.hash) && FrameContent(fr) == input
    ensures error == None && |input| < 0x1_0000_0000_0000_0000 ==>
      && ValidFrame(fr, []) && used <= |frame| && |output| <= |input| && output == input[..|output|]
      && (complete <==> used == |frame|) && (complete ==> output == input)
      && ((exists i :: 0 <= i < |pieces| && pieces[i] >= |frame| && rooms[i] > |input|) ==> complete)
      && (|pieces| >= |frame| + |input| && FrameDecoder.NoneEmpty(pieces) && FrameDecoder.NoneEmpty(rooms) ==> complete)
  {
    hide EmitFrame, ValidFrame, Gathered;
    error, input, frame, fr := CompressInPieces(c, preferences, sources, flush);
    ghost var t := FrameDecoder.Track(true, fr, []);
    if error == None && |input| < 0x1_0000_0000_0000_0000 {
      output, used, complete := FrameDecoder.DecodeInPieces(d, None, frame, pieces, rooms, skips, t);
    } else {
      output, used, complete := [], 0, false;
    }
  }
}
