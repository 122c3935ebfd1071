/**
  Streaming with the high-compression levels: `LZ4_streamHC_t`. The window of a stream is the current prefix and one
  external dictionary segment before it; a block that does not follow the prefix turns the prefix into that segment.

  Memory is one array `mem`; pointers are indexes into it.
*/
module HcStream {
  import opened Lz4Format
  import opened HcSearch
  import opened HcParser
  import opened HcOptimal
  import opened FastStream
  import BC = BlockCompressor

  const GB2 := 0x8000_0000

  datatype Strategy = HashChain(searches: nat) | Optimal(searches: nat, targetLength: nat, ultra: bool)

  /** The table of levels in `LZ4HC_compress_generic_internal`. */
  function StrategyOf(level: int): Strategy {
    var l := Min(if level < 1 then 9 else level, 12);
    if l <= 2 then HashChain(2)
    else if l == 3 then HashChain(4)
    else if l == 4 then HashChain(8)
    else if l == 5 then HashChain(16)
    else if l == 6 then HashChain(32)
    else if l == 7 then HashChain(64)
    else if l == 8 then HashChain(128)
    else if l == 9 then HashChain(256)
    else if l == 10 then Optimal(96, 64, false)
    else if l == 11 then Optimal(512, 128, false)
    else Optimal(16384, OPT_NUM, true)
  }

  /** `n` bytes of memory are those of the history that end `tail` bytes before its end. */
  ghost predicate Part(mem: Bytes, at: nat, n: nat, history: Bytes, tail: nat) {
    at + n <= |mem| && tail + n <= |history|
    && mem[at..at + n] == history[|history| - tail - n..|history| - tail]
  }

  /** The same, but for what the block from `source` to `sourceEnd` has overwritten. */
  ghost predicate Intact(mem: Bytes, at: nat, n: nat, history: Bytes, tail: nat, source: nat, sourceEnd: nat) {
    && at + n <= |mem| && tail + n <= |history|
    && forall a :: at <= a < at + n && !(source <= a < sourceEnd) ==> mem[a] == history[a - at + |history| - tail - n]
  }

  lemma IntactTail(mem: Bytes, at: nat, n: nat, history: Bytes, tail: nat, source: nat, sourceEnd: nat, k: nat)
    requires Intact(mem, at, n, history, tail, source, sourceEnd) && k <= n
    ensures Intact(mem, at + k, n - k, history, tail, source, sourceEnd)
  {
  }

  lemma IntactApart(mem: Bytes, at: nat, n: nat, history: Bytes, tail: nat, source: nat, sourceEnd: nat)
    requires Intact(mem, at, n, history, tail, source, sourceEnd)
    requires n == 0 || sourceEnd <= at || source >= at + n
    ensures Part(mem, at, n, history, tail)
  {
  }

  lemma PartIntact(mem: Bytes, at: nat, n: nat, history: Bytes, tail: nat, source: nat, sourceEnd: nat)
    requires Part(mem, at, n, history, tail)
    ensures Intact(mem, at, n, history, tail, source, sourceEnd)
  {
    forall a | at <= a < at + n && !(source <= a < sourceEnd)
      ensures mem[a] == history[a - at + |history| - tail - n]
    {
      assert mem[a] == mem[at..at + n][a - at];
    }
  }

  lemma NothingThere(mem: Bytes, at: nat, history: Bytes, tail: nat)
    requires at <= |mem| && tail <= |history|
    ensures Part(mem, at, 0, history, tail)
  {
  }

  /** Two adjoining parts are the end of the history. */
  lemma PartsJoin(mem: Bytes, dict: nat, d: nat, prefix: nat, p: nat, history: Bytes)
    requires Part(mem, prefix, p, history, 0) && Part(mem, dict, d, history, p)
    ensures d + p <= |history|
    ensures mem[dict..dict + d] + mem[prefix..prefix + p] == history[|history| - (d + p)..]
  {
    SliceJoin(history, |history| - (d + p), |history| - p, |history|);
  }

  lemma PartGrows(mem: Bytes, at: nat, n: nat, history: Bytes, block: Bytes)
    requires Part(mem, at, n, history, 0) && at + n + |block| <= |mem| && mem[at + n..at + n + |block|] == block
    ensures Part(mem, at, n + |block|, history + block, 0)
  {
    SliceJoin(mem, at, at + n, at + n + |block|);
    var h := history + block;
    assert h[|h| - (n + |block|)..|h|] == history[|history| - n..] + block;
  }

  lemma PartOlder(mem: Bytes, at: nat, n: nat, history: Bytes, tail: nat, block: Bytes)
    requires Part(mem, at, n, history, tail)
    ensures Part(mem, at, n, history + block, tail + |block|)
  {
    var h := history + block;
    assert h[|h| - (tail + |block|) - n..|h| - (tail + |block|)] == history[|history| - tail - n..|history| - tail];
  }

  class HcStream {
    const ctx: Context
    var prefixStart: nat
    var end: nat
    var dictStart: nat
    /** Whether a prefix has been set since the last reset. */
    var started: bool
    /** Whether `LZ4HC_init_internal` has run since the stream was zeroed; until then its index counts as 0. */
    var indexed: bool
    var dirty: bool
    var favorDecSpeed: bool
    var level: int

    ghost predicate Valid(size: nat)
      reads this, ctx, ctx.hashTable, ctx.chainTable
    {
      && ctx.Valid() && prefixStart <= end && end <= size && dictStart + ctx.DictSize() <= size
      && ctx.nextToUpdate <= ctx.dictLimit + Max(end - prefixStart - 3, 0)
      && (!indexed ==> ctx.nextToUpdate == KB64) && (started ==> indexed)
    }

    /** The segments of the window are the end of the history. */
    ghost predicate Holds(mem: Bytes, history: Bytes)
      requires prefixStart <= end && ctx.lowLimit <= ctx.dictLimit
      reads `prefixStart, `end, `dictStart, ctx`lowLimit, ctx`dictLimit
    {
      && Part(mem, prefixStart, end - prefixStart, history, 0)
      && Part(mem, dictStart, ctx.DictSize(), history, end - prefixStart)
    }

    /** What the caller owes before compressing the block at `source`: what may be referred to is untouched, except
        where the block itself lies. */
    ghost predicate Available(mem: Bytes, history: Bytes, source: nat, sourceEnd: nat)
      requires prefixStart <= end && ctx.lowLimit <= ctx.dictLimit
      reads `prefixStart, `end, `dictStart, ctx`lowLimit, ctx`dictLimit
    {
      && Intact(mem, prefixStart, end - prefixStart, history, 0, source, sourceEnd)
      && (source == end ==>
            Intact(mem, dictStart, ctx.DictSize(), history, end - prefixStart, source, sourceEnd))
    }

    /** `LZ4_initStreamHC`. */
    constructor (hashSize: nat, level: int)
      requires hashSize > 0
      ensures Valid(0) && !started && fresh(ctx) && fresh(ctx.hashTable) && fresh(ctx.chainTable)
      ensures prefixStart == end && ctx.DictSize() == 0
    {
      ctx := new Context(hashSize);
      prefixStart, end, dictStart, started, indexed, dirty, favorDecSpeed := 0, 0, 0, false, false, false, false;
      this.level := level;
    }

    /** `LZ4_initStreamHC` on a stream in use. */
    method Zero()
      requires ctx.Valid()
      modifies this, ctx, ctx.hashTable, ctx.chainTable
      ensures Valid(0) && !started && !indexed && prefixStart == end && ctx.DictSize() == 0
    {
      ctx.ClearTables();
      ctx.lowLimit, ctx.dictLimit, ctx.nextToUpdate := KB64, KB64, KB64;
      prefixStart, end, dictStart, started, indexed, dirty, favorDecSpeed := 0, 0, 0, false, false, false, false;
      level := 9;
    }

    /** `LZ4_resetStreamHC_fast`: the tables are kept unless the last compression failed. */
    method ResetFast(size: nat, compressionLevel: int)
      requires Valid(size)
      modifies this, ctx, ctx.hashTable, ctx.chainTable
      ensures Valid(size) && !started
    {
      if dirty {
        Zero();
      } else {
        end, prefixStart, started := end - prefixStart, 0, false;
      }
      level := compressionLevel;
    }

    /** `LZ4HC_init_internal`: a gap of 64 KB puts whatever the tables hold out of reach. */
    method Init(size: nat, at: nat)
      requires Valid(size) && at <= size
      modifies this, ctx, ctx.hashTable, ctx.chainTable
      ensures Valid(size) && started && indexed && prefixStart == end == dictStart == at && ctx.DictSize() == 0
      ensures ctx.nextToUpdate == ctx.dictLimit && level == old(level)
    {
      var newStartingOffset := if indexed then end - prefixStart + ctx.dictLimit else 0;
      if newStartingOffset > GB1 {
        ctx.ClearTables();
        newStartingOffset := 0;
      }
      newStartingOffset := newStartingOffset + KB64;
      ctx.nextToUpdate, ctx.dictLimit, ctx.lowLimit := newStartingOffset, newStartingOffset, newStartingOffset;
      prefixStart, end, dictStart, started, indexed := at, at, at, true, true;
    }

    /** `LZ4_loadDictHC`: the last 64 KB become the prefix, indexed but for the last three positions. */
    method LoadDict(mem: array<byte>, dictionary: nat, size: nat, hash: Bytes -> nat) returns (loaded: nat)
      requires ctx.Valid() && dictionary + size <= mem.Length
      modifies this, ctx, ctx.hashTable, ctx.chainTable
      ensures Valid(mem.Length) && started && indexed && loaded == Min(size, KB64) && ctx.DictSize() == 0
      ensures prefixStart == dictionary + size - loaded && end == dictionary + size && dictStart == prefixStart
      ensures Holds(mem[..], mem[..][dictionary..dictionary + size])
    {
      hide Holds, Part;
      loaded := Min(size, KB64);
      var from := dictionary + size - loaded;
      var cLevel := level;
      Zero();
      level := cLevel;
      Init(mem.Length, from);
      if loaded >= 4 { ctx.Insert(mem[from..from + loaded], loaded - 3, hash); }
      end := from + loaded;
      LoadedDict(mem[..], dictionary, size);
    }

    lemma LoadedDict(mem: Bytes, dictionary: nat, size: nat)
      requires dictionary + size <= |mem| && prefixStart <= end == dictionary + size && end - prefixStart <= size
      requires ctx.lowLimit == ctx.dictLimit && dictStart <= |mem|
      ensures Holds(mem, mem[dictionary..dictionary + size])
    {
      SubSlice(mem, dictionary, prefixStart, end);
      NothingThere(mem, dictStart, mem[dictionary..end], end - prefixStart);
    }

    /** `LZ4HC_setExternalDict`: the prefix becomes the only dictionary segment. */
    method SetExternalDict(mem: array<byte>, newBlock: nat, hash: Bytes -> nat)
      requires Valid(mem.Length) && newBlock <= mem.Length
      modifies this, ctx, ctx.hashTable, ctx.chainTable
      requires indexed
      ensures Valid(mem.Length) && prefixStart == end == newBlock && started == old(started) && indexed
      ensures dictStart == old(prefixStart) && ctx.DictSize() == old(end - prefixStart)
    {
      var p, d := end - prefixStart, ctx.DictSize();
      if p >= 4 { ctx.Insert(mem[dictStart..dictStart + d] + mem[prefixStart..end], d + p - 3, hash); }
      ctx.lowLimit, dictStart := ctx.dictLimit, prefixStart;
      ctx.dictLimit := ctx.dictLimit + p;
      prefixStart, end := newBlock, newBlock;
      ctx.nextToUpdate := ctx.dictLimit;
    }

    /** The block may have overwritten the front of the dictionary segment, or all of it. */
    method CutDict(source: nat, sourceEnd0: nat)
      requires ctx.Valid() && source <= sourceEnd0
      modifies `dictStart, ctx`lowLimit
      ensures ctx.Valid() && ctx.DictSize() <= old(ctx.DictSize())
      ensures ctx.DictSize() > 0 ==>
        && dictStart + ctx.DictSize() == old(dictStart + ctx.DictSize()) && dictStart >= old(dictStart)
        && (sourceEnd0 <= dictStart || source >= dictStart + ctx.DictSize())
      ensures dictStart + ctx.DictSize() == old(dictStart + ctx.DictSize()) || dictStart == prefixStart
    {
      var dictEnd := dictStart + ctx.DictSize();
      var sourceEnd := sourceEnd0;
      if sourceEnd > dictStart && source < dictEnd {
        if sourceEnd > dictEnd { sourceEnd := dictEnd; }
        ctx.lowLimit := ctx.lowLimit + (sourceEnd - dictStart);
        dictStart := sourceEnd;
        if ctx.dictLimit - ctx.lowLimit < 4 {
          ctx.lowLimit := ctx.dictLimit;
          dictStart := prefixStart;
        }
      }
    }

    /** What `LZ4_compressHC_continue_generic` does before compressing: the window then ends where the block starts. */
    method LocateWindow(mem: array<byte>, source: nat, sourceEnd: nat, hash: Bytes -> nat, ghost history: Bytes)
      requires Valid(mem.Length) && source <= sourceEnd <= mem.Length
      requires started ==> Available(mem[..], history, source, sourceEnd)
      modifies this, ctx, ctx.hashTable, ctx.chainTable
      ensures Valid(mem.Length) && started && indexed && end == source && Holds(mem[..], history)
    {
      hide Part, Intact;
      ghost var m := mem[..];
      if !started {
        Init(mem.Length, source);
        Started(m, history, source, sourceEnd);
      }
      if end - prefixStart + ctx.dictLimit > GB2 {
        ghost var from, p := prefixStart, end - prefixStart;
        var dictSize := Min(end - prefixStart, KB64);
        var loaded := LoadDict(mem, end - dictSize, dictSize, hash);
        IntactTail(m, from, p, history, 0, source, sourceEnd, p - dictSize);
        NothingThere(m, dictStart, history, dictSize);
        PartIntact(m, dictStart, 0, history, dictSize, source, sourceEnd);
      }
      if source != end {
        SetExternalDict(mem, source, hash);
        NothingThere(m, source, history, 0);
      } else {
        IntactApart(m, prefixStart, end - prefixStart, history, 0, source, sourceEnd);
      }
      DropFront(m, source, sourceEnd, history);
    }

    /** A new block, wherever it is put, leaves the rest of the window as it was. */
    lemma StillAvailable(before: Bytes, after: Bytes, history: Bytes, source: nat, sourceEnd: nat)
      requires prefixStart <= end && ctx.lowLimit <= ctx.dictLimit && Holds(before, history) && |before| == |after|
      requires forall i :: 0 <= i < |before| && !(source <= i < sourceEnd) ==> after[i] == before[i]
      ensures Available(after, history, source, sourceEnd)
    {
      hide Part;
      PartIntact(before, prefixStart, end - prefixStart, history, 0, source, sourceEnd);
      PartIntact(before, dictStart, ctx.DictSize(), history, end - prefixStart, source, sourceEnd);
    }

    /** After initialisation the window is empty. */
    lemma Started(mem: Bytes, history: Bytes, source: nat, sourceEnd: nat)
      requires prefixStart == end == dictStart == source <= |mem| && ctx.lowLimit == ctx.dictLimit
      ensures Available(mem, history, source, sourceEnd)
    {
      NothingThere(mem, source, history, 0);
      PartIntact(mem, source, 0, history, 0, source, sourceEnd);
    }

    method DropFront(ghost mem: Bytes, source: nat, sourceEnd: nat, ghost history: Bytes)
      requires Valid(|mem|) && source <= sourceEnd <= |mem| && end == source
      requires Part(mem, prefixStart, end - prefixStart, history, 0)
      requires Intact(mem, dictStart, ctx.DictSize(), history, end - prefixStart, source, sourceEnd)
      modifies `dictStart, ctx`lowLimit
      ensures Valid(|mem|) && Holds(mem, history)
    {
      hide Part, Intact;
      ghost var at, n, tail := dictStart, ctx.DictSize(), end - prefixStart;
      CutDict(source, sourceEnd);
      if ctx.DictSize() > 0 {
        IntactTail(mem, at, n, history, tail, source, sourceEnd, n - ctx.DictSize());
        IntactApart(mem, dictStart, ctx.DictSize(), history, tail, source, sourceEnd);
      } else {
        PartSize(mem, prefixStart, tail, history);
        NothingThere(mem, dictStart, history, tail);
      }
    }

    lemma PartSize(mem: Bytes, at: nat, n: nat, history: Bytes)
      requires Part(mem, at, n, history, 0)
      ensures n <= |history| && at + n <= |mem|
    {
    }

    /** One block at the end of the window `v`, with the parser of the level. */
    method CompressBlock(v: Bytes, s0: nat, dst: array<byte>, dstCapacity: nat, hash: Bytes -> nat)
      returns (result: nat)
      requires s0 <= |v| && dstCapacity <= dst.Length && ctx.Valid() && Upcoming(ctx) <= s0
      modifies dst, ctx`nextToUpdate, ctx.hashTable, ctx.chainTable
      ensures ctx.Valid() && Upcoming(ctx) <= Max(old(Upcoming(ctx)), |v| - MFLIMIT) && result <= dstCapacity
      ensures result > 0 ==> Encodes(dst[..result], v[..s0], v[s0..])
      ensures result == 0 ==> dstCapacity < BC.CompressBound(|v| - s0)
    {
      hide Encodes;
      var limit := if dstCapacity < BC.CompressBound(|v| - s0) then BC.LimitedOutput else BC.NotLimited;
      var consumed;
      match StrategyOf(level) {
        case HashChain(searches) =>
          var j := Job(v, s0, limit, dstCapacity, hash, searches, searches > 128);
          result, consumed := CompressHashChain(ctx, j, dst);
        case Optimal(searches, targetLength, ultra) =>
          var j := Job(v, s0, limit, dstCapacity, hash, searches, true);
          result, consumed := CompressOptimal(ctx, j, dst, targetLength, ultra, favorDecSpeed);
      }
      assert result > 0 ==> v[s0..s0 + consumed] == v[s0..];
    }

    /** `LZ4_compress_HC_continue`. Whatever ran before, and wherever the block lies, it is written so that it decodes
        after the whole history, of which the window afterwards again holds the end, whether the block fitted or not. */
    method CompressContinue(mem: array<byte>, source: nat, inputSize: nat, dst: array<byte>, dstCapacity: nat,
                            hash: Bytes -> nat, ghost history: Bytes)
      returns (result: nat)
      requires Valid(mem.Length) && mem != dst && dstCapacity <= dst.Length && source + inputSize <= mem.Length
      requires started ==> Available(mem[..], history, source, source + inputSize)
      modifies this, ctx, ctx.hashTable, ctx.chainTable, dst
      ensures Valid(mem.Length) && result <= dstCapacity
      ensures result == 0 ==> inputSize > MAX_INPUT_SIZE || dstCapacity < BC.CompressBound(inputSize)
      ensures result > 0 ==>
        inputSize <= MAX_INPUT_SIZE && Encodes(dst[..result], history, mem[source..source + inputSize])
      ensures inputSize <= MAX_INPUT_SIZE ==>
        started && end == source + inputSize && Holds(mem[..], history + mem[source..source + inputSize])
    {
      hide Encodes, Holds, Available;
      LocateWindow(mem, source, source + inputSize, hash, history);
      if inputSize > MAX_INPUT_SIZE { return 0; }
      result := CompressHere(mem, inputSize, dst, dstCapacity, hash, history);
    }

    /** The block at the end of the window. */
    method CompressHere(mem: array<byte>, inputSize: nat, dst: array<byte>, dstCapacity: nat, hash: Bytes -> nat,
                        ghost history: Bytes)
      returns (result: nat)
      requires Valid(mem.Length) && started && mem != dst && dstCapacity <= dst.Length
      requires end + inputSize <= mem.Length && Holds(mem[..], history)
      modifies `end, `dirty, ctx`nextToUpdate, ctx.hashTable, ctx.chainTable, dst
      ensures Valid(mem.Length) && result <= dstCapacity && end == old(end) + inputSize
      ensures result == 0 ==> dstCapacity < BC.CompressBound(inputSize)
      ensures var block := mem[old(end)..old(end) + inputSize];
        && (result > 0 ==> Encodes(dst[..result], history, block))
        && Holds(mem[..], history + block)
    {
      hide Encodes, Part, Intact, Holds, Valid, Window;
      ghost var m, source, p := mem[..], end, end - prefixStart;
      ValidFacts(mem.Length);
      HoldsParts(m, history);
      ghost var block, v, s0 := mem[source..source + inputSize], Window(m, inputSize), PrefixEnd();
      WindowParts(m, history, block);
      result := CompressWindow(mem, inputSize, dst, dstCapacity, hash);
      assert mem[..] == m;
      WindowGrows(m, history, block, p);
      if result > 0 { AfterWindow(dst[..result], history, v, s0, block); }
    }

    /** How much of the window precedes the block. */
    ghost function PrefixEnd(): int
      reads `prefixStart, `end, ctx`lowLimit, ctx`dictLimit
    {
      ctx.DictSize() + end - prefixStart
    }

    /** The window with a block of `n` bytes behind it. */
    ghost function Window(m: Bytes, n: nat): Bytes
      requires Placed(|m|, n)
      reads `prefixStart, `end, `dictStart, ctx`lowLimit, ctx`dictLimit
    {
      m[dictStart..dictStart + ctx.DictSize()] + m[prefixStart..end + n]
    }

    ghost predicate Placed(size: nat, n: nat)
      reads `prefixStart, `end, `dictStart, ctx`lowLimit, ctx`dictLimit
    {
      ctx.lowLimit <= ctx.dictLimit && dictStart + ctx.DictSize() <= size && prefixStart <= end && end + n <= size
    }

    /** The block at the end of the window is compressed and becomes part of it. */
    method CompressWindow(mem: array<byte>, inputSize: nat, dst: array<byte>, dstCapacity: nat, hash: Bytes -> nat)
      returns (result: nat)
      requires Valid(mem.Length) && started && mem != dst && dstCapacity <= dst.Length
      requires Placed(mem.Length, inputSize)
      modifies `end, `dirty, ctx`nextToUpdate, ctx.hashTable, ctx.chainTable, dst
      ensures Valid(mem.Length) && result <= dstCapacity && end == old(end) + inputSize
      ensures result == 0 ==> dstCapacity < BC.CompressBound(inputSize)
      ensures result > 0 ==> EncodesTail(dst[..result], old(Window(mem[..], inputSize)), old(PrefixEnd()))
    {
      hide Encodes, Valid, Context.Valid;
      ValidFacts(mem.Length);
      var d, p := ctx.DictSize(), end - prefixStart;
      var v := mem[dictStart..dictStart + d] + mem[prefixStart..end + inputSize];
      assert v == Window(mem[..], inputSize);
      end := end + inputSize;
      result := CompressBlock(v, d + p, dst, dstCapacity, hash);
      if result == 0 { dirty := true; }
      ValidNow(mem.Length);
    }

    static ghost predicate EncodesTail(b: Bytes, v: Bytes, s0: int) {
      0 <= s0 <= |v| && Encodes(b, v[..s0], v[s0..])
    }

    lemma ValidFacts(size: nat)
      requires Valid(size)
      ensures ctx.Valid() && prefixStart <= end && ctx.lowLimit <= ctx.dictLimit && (started ==> indexed)
      ensures dictStart + ctx.DictSize() <= size && Upcoming(ctx) <= ctx.DictSize() + Max(end - prefixStart - 3, 0)
    {
    }

    lemma ValidNow(size: nat)
      requires ctx.Valid() && prefixStart <= end && end <= size && dictStart + ctx.DictSize() <= size && indexed
      requires Upcoming(ctx) <= ctx.DictSize() + Max(end - prefixStart - 3, 0)
      ensures Valid(size)
    {
    }

    lemma HoldsParts(mem: Bytes, history: Bytes)
      requires prefixStart <= end && ctx.lowLimit <= ctx.dictLimit && Holds(mem, history)
      ensures Part(mem, prefixStart, end - prefixStart, history, 0)
      ensures Part(mem, dictStart, ctx.DictSize(), history, end - prefixStart)
    {
    }

    lemma WindowParts(mem: Bytes, history: Bytes, block: Bytes)
      requires Placed(|mem|, |block|) && Holds(mem, history) && block == mem[end..end + |block|]
      ensures var (v, s0) := (Window(mem, |block|), PrefixEnd());
        0 <= s0 <= |history| && s0 <= |v| && v[..s0] == history[|history| - s0..] && v[s0..] == block
    {
      var d, p := ctx.DictSize(), end - prefixStart;
      hide Part;
      PartsJoin(mem, dictStart, d, prefixStart, p, history);
      SliceJoin(mem, prefixStart, end, end + |block|);
      Assoc(mem[dictStart..dictStart + d], mem[prefixStart..end], block);
      PartsOf(mem[dictStart..dictStart + d] + mem[prefixStart..end], block);
    }

    static lemma PartsOf(a: Bytes, b: Bytes)
      ensures (a + b)[..|a|] == a && (a + b)[|a|..] == b
    {
    }

    static lemma AfterWindow(b: Bytes, history: Bytes, v: Bytes, s0: int, block: Bytes)
      requires 0 <= s0 <= |v| && s0 <= |history| && v[..s0] == history[|history| - s0..] && v[s0..] == block
      requires EncodesTail(b, v, s0)
      ensures Encodes(b, history, block)
    {
      hide Encodes;
      EncodesWindow(b, history[..|history| - s0], v[..s0], block);
      assert history == history[..|history| - s0] + v[..s0];
    }

    lemma WindowGrows(mem: Bytes, history: Bytes, block: Bytes, p: nat)
      requires prefixStart + p + |block| == end <= |mem| && ctx.lowLimit <= ctx.dictLimit
      requires block == mem[end - |block|..end]
      requires Part(mem, prefixStart, p, history, 0) && Part(mem, dictStart, ctx.DictSize(), history, p)
      ensures Holds(mem, history + block)
    {
      hide Part;
      PartGrows(mem, prefixStart, p, history, block);
      PartOlder(mem, dictStart, ctx.DictSize(), history, p, block);
    }

    /** `LZ4_saveDictHC`: the end of the prefix moves to `safeBuffer`, which may overlap it, and is all that is kept. */
    method SaveDict(mem: array<byte>, safeBuffer: nat, size: int, ghost history: Bytes) returns (saved: nat)
      requires Valid(mem.Length) && started && Holds(mem[..], history)
      requires safeBuffer + Max(Min(size, KB64), 0) <= mem.Length
      modifies `prefixStart, `end, `dictStart, ctx`lowLimit, ctx`dictLimit, ctx`nextToUpdate, mem
      ensures Valid(mem.Length) && started && Holds(mem[..], history)
      ensures saved == Min(if size < 4 then 0 else Min(size, KB64), old(end - prefixStart))
      ensures prefixStart == safeBuffer && end == safeBuffer + saved && ctx.DictSize() == 0
      ensures forall i :: 0 <= i < mem.Length && !(safeBuffer <= i < safeBuffer + saved) ==> mem[i] == old(mem[i])
    {
      hide Part;
      ghost var before := mem[..];
      var prefixSize := end - prefixStart;
      saved := if size < 4 then 0 else Min(size, KB64);
      if saved > prefixSize { saved := prefixSize; }
      Memmove(mem, safeBuffer, end - saved, saved);
      PartMoved(before, mem[..], prefixStart, prefixSize, safeBuffer, saved, history);
      NothingThere(mem[..], safeBuffer, history, saved);
      MovePrefix(mem.Length, safeBuffer, saved);
    }

    /** The last `saved` bytes of the prefix are now at `to`; their indexes stay. */
    method MovePrefix(size: nat, to: nat, saved: nat)
      requires Valid(size) && started && to + saved <= size && saved <= end - prefixStart
      requires saved == 0 || saved >= 4 || saved == end - prefixStart
      modifies `prefixStart, `end, `dictStart, ctx`lowLimit, ctx`dictLimit, ctx`nextToUpdate
      ensures Valid(size) && prefixStart == to == dictStart && end == to + saved && ctx.DictSize() == 0
    {
      var endIndex := end - prefixStart + ctx.dictLimit;
      prefixStart, end, dictStart := to, to + saved, to;
      ctx.lowLimit, ctx.dictLimit := endIndex - saved, endIndex - saved;
      if ctx.nextToUpdate < ctx.dictLimit { ctx.nextToUpdate := ctx.dictLimit; }
    }

    static lemma PartMoved(before: Bytes, after: Bytes, at: nat, n: nat, to: nat, k: nat, history: Bytes)
      requires Part(before, at, n, history, 0) && k <= n && to + k <= |after| == |before|
      requires after[to..to + k] == before[at + n - k..at + n]
      ensures Part(after, to, k, history, 0) && k <= |history|
    {
      SubSlice(before, at, at + n - k, at + n);
      SubSlice(history, |history| - n, |history| - k, |history|);
    }
  }
}
