/**
  Compression state kept between calls: `LZ4_stream_t`, its fast reset, its index renormalisation, and
  streaming compression with `LZ4_compress_fast_continue` and `LZ4_saveDict`.

  Memory is one array `mem`; a pointer is an index into it. The state remembers where its dictionary
  lies (`dictionary`, `dictSize`), not what it holds: the caller must leave it in place.
*/
module FastStream {
  import opened Wrappers
  import opened Lz4Format
  import opened BlockCompressor
  import opened IndexRescaling
  import opened AttachedDictionary

  datatype TableKind = Cleared | Holds(kind: TableType)

  const KB4 := 4096
  const GB1 := 0x4000_0000

  function ModeOf(prefix: bool): DictDirective {
    if prefix then WithPrefix64k else UsingExtDict
  }

  /** What has been written, and the table left behind, are as planned. */
  ghost predicate PlanCarriedOut(j: Job, table: seq<nat>, b: Budget, acceleration: nat, written: Bytes, after: seq<nat>)
    requires j.Valid()
  {
    |table| > 0 && acceleration >= 1 && after == Planned(j, table, b, acceleration).1
    && AsPlanned(Planned(j, table, b, acceleration).0, written)
  }

  function Accel(acceleration: int): nat {
    if acceleration < 1 then 1 else Min(acceleration, 65537)
  }

  /** The index base and the table are the same, or have been moved together. */
  ghost predicate Rebased(start: nat, table: seq<nat>, start2: nat, table2: seq<nat>) {
    || (start2 == start && table2 == table)
    || (start2 == KB64 <= start && table2 == RescaledAll(table, start - KB64))
  }

  /** What has been written is planned for the index base and the table as they were before any renormalisation. */
  ghost predicate PlannedWithoutRenorm(dict: Bytes, src: Bytes, start: nat, prefix: bool, hash: Bytes -> nat,
                                       table: seq<nat>, olimit: nat, acceleration: nat, written: Bytes)
  {
    var j := StreamJob(dict, src, start, ModeOf(prefix), hash);
    j.Valid() && |table| > 0 && acceleration >= 1 && AsPlanned(Planned(j, table, Limited(olimit), acceleration).0,
                                                               written)
  }

  lemma RenormUnseen(dict: Bytes, src: Bytes, start: nat, start2: nat, prefix: bool, hash: Bytes -> nat,
                     table: seq<nat>, table2: seq<nat>, olimit: nat, acceleration: nat, written: Bytes, after: seq<nat>)
    requires StreamJob(dict, src, start2, ModeOf(prefix), hash).Valid() && |dict| <= start
    requires PlanCarriedOut(StreamJob(dict, src, start2, ModeOf(prefix), hash), table2, Limited(olimit), acceleration,
                            written, after)
    requires Rebased(start, table, start2, table2)
    ensures PlannedWithoutRenorm(dict, src, start, prefix, hash, table, olimit, acceleration, written)
  {
    hide Planned, AsPlanned;
    if start2 != start {
      var j, j2 := StreamJob(dict, src, start, ModeOf(prefix), hash), StreamJob(dict, src, start2, ModeOf(prefix),
                                                                                hash);
      assert j.v == [] + j2.v;
      PlannedSame(j, j2, [], start - KB64, table, Limited(olimit), acceleration);
      SeenAlone(j, table, start - KB64);
    }
  }

  /** What decides where the dictionary of a stream will be: the next index, and where the dictionary is. */
  datatype Where = Where(offset: nat, dictionary: nat, dictSize: nat) {
    function DictEnd(): nat { dictionary + dictSize }

    /** `LZ4_renormDictT`. */
    function Renormed(size: nat): Where {
      if offset + size > MAX_OFFSET then Where(KB64, DictEnd() - Min(dictSize, KB64), Min(dictSize, KB64)) else this
    }

    /** The part of the dictionary that a block may use, and whether it directly precedes the block. */
    function Located(source: nat, size: nat): (Where, bool) {
      Renormed(size).Cut(source, size, if dictSize > 0 then DictEnd() else -1)
    }

    /** A dictionary too short for use is dropped, and the front over which the block lies. */
    function Cut(source: nat, size: nat, dictEnd: int): (Where, bool) {
      if dictSize < 4 && dictEnd != source && size > 0 then (this.(dictionary := source, dictSize := 0), true)
      else if dictionary < source + size < dictEnd then
        var n := Min(dictEnd - (source + size), KB64);
        var k := if n < 4 then 0 else n;
        (this.(dictionary := dictEnd - k, dictSize := k), dictEnd == source)
      else (this, dictEnd == source)
    }

    /** After a block at `source`. */
    function After(source: nat, size: nat): Where {
      var (w, prefix) := Located(source, size);
      if prefix then Where(w.offset + size, w.dictionary, w.dictSize + size) else Where(w.offset + size, source, size)
    }

    /** After `LZ4_saveDict`. */
    function Saved(safeBuffer: nat, size: int): Where {
      Where(offset, safeBuffer, Min(if 0 <= size then Min(size, KB64) else KB64, dictSize))
    }
  }

  /** The table after any rescaling before a block of the given size. */
  function RenormedTable(offset: nat, table: seq<nat>, size: nat): seq<nat> {
    if offset + size > MAX_OFFSET then RescaledAll(table, Delta32(offset)) else table
  }

  /** A block is as planned for the state `w` and `table`, and `after` is the table left behind. */
  ghost predicate CarriedOut(w: Where, table: seq<nat>, source: nat, history: Bytes, block: Bytes, hash: Bytes -> nat,
                             olimit: nat, acceleration: nat, written: Bytes, after: seq<nat>)
  {
    var (l, prefix) := w.Located(source, |block|);
    && l.dictSize <= |history|
    && var j := StreamJob(history[|history| - l.dictSize..], block, l.offset, ModeOf(prefix), hash);
    j.Valid()
    && PlanCarriedOut(j, RenormedTable(w.offset, table, |block|), Limited(olimit), acceleration, written, after)
  }

  class Stream {
    const hashTable: array<nat>
    var currentOffset: nat
    var tableKind: TableKind
    var dictionary: nat
    var dictSize: nat
    /** The attached dictionary stream, which must not change while it is attached. */
    var dictCtx: Option<DictCtx>

    function Now(): Where
      reads `currentOffset, `dictionary, `dictSize
    {
      Where(currentOffset, dictionary, dictSize)
    }

    /** Table entries are zero or at least four bytes before the end of what was indexed. */
    ghost predicate Valid()
      reads this, hashTable
    {
      && hashTable.Length > 0
      && dictSize <= currentOffset <= MAX_OFFSET
      && (forall h :: 0 <= h < hashTable.Length ==> hashTable[h] == 0 || hashTable[h] + MINMATCH <= currentOffset)
      && (tableKind == Cleared ==> forall h :: 0 <= h < hashTable.Length ==> hashTable[h] == 0)
      && (tableKind == Holds(ByU16) ==> forall h :: 0 <= h < hashTable.Length ==> hashTable[h] < 0x1_0000)
    }

    /** The table is empty or holds 32-bit indexes, as streaming needs. */
    predicate Uses32()
      reads `tableKind
    {
      tableKind == Cleared || tableKind == Holds(ByU32)
    }

    /** Streaming without an attached dictionary stream. */
    predicate StreamMode()
      reads this
    {
      Uses32() && dictCtx == None
    }

    /** `LZ4_initStream`. */
    constructor (hashSize: nat)
      requires hashSize > 0
      ensures Valid() && fresh(hashTable) && hashTable.Length == hashSize
      ensures currentOffset == 0 && tableKind == Cleared && dictSize == 0 && dictionary == 0 && dictCtx == None
    {
      hashTable := new nat[hashSize](_ => 0);
      currentOffset, tableKind, dictionary, dictSize, dictCtx := 0, Cleared, 0, 0, None;
    }

    /** `LZ4_compress_generic`: special sizes, update of the state, then the block itself. `dict` is what the
        block may refer to, which must be what `dictDirective` stands for. */
    method CompressGeneric(src: Bytes, dict: Bytes, dst: array<byte>, dstCapacity: nat, directive: Directive,
                           tableType: TableType, dictDirective: DictDirective, small: bool, acceleration: nat,
                           hash: Bytes -> nat)
      returns (result: nat, consumed: nat)
      requires Valid() && acceleration >= 1
      requires if directive == NotLimited then CompressBound(|src|) <= dst.Length else dstCapacity <= dst.Length
      requires dictDirective.UsingDictCtx? || |dict| == dictSize
      requires tableKind == Cleared || tableKind == Holds(tableType)
      requires |src| <= MAX_INPUT_SIZE ==> currentOffset + |src| <= MAX_OFFSET
      requires |src| > 0 ==> StateFits(|dict|, |src|, directive, tableType, dictDirective, small)
      modifies this, hashTable, dst
      ensures Valid() && consumed <= |src| && result <= dst.Length
      ensures directive != FillOutput ==> consumed == |src|
      ensures result > 0 ==> Encodes(dst[..result], dict, src[..consumed])
      ensures directive == NotLimited ==> result <= CompressBound(|src|)
      ensures directive != NotLimited ==> result <= dstCapacity
      ensures result == 0 ==>
        || |src| > MAX_INPUT_SIZE
        || (tableType == ByU16 && |src| >= LIMIT_64K)
        || (directive != NotLimited && dstCapacity == 0)
        || (directive == LimitedOutput && dstCapacity < CompressBound(|src|))
      ensures dictionary == old(dictionary)
      ensures dictCtx == old(dictCtx) || (dictDirective.UsingDictCtx? && dictCtx == None)
      ensures |src| == 0 ==>
        dictSize == old(dictSize) && currentOffset == old(currentOffset) && dictCtx == old(dictCtx)
      ensures |src| == 0 && result > 0 ==> dst[..result] == [0]
      ensures |src| == 0 ==> hashTable[..] == old(hashTable[..])
      ensures |src| > MAX_INPUT_SIZE ==> result == 0
      ensures
        && 0 < |src|
        && (result > 0 || (tableType == ByU32 && directive == LimitedOutput && |src| <= MAX_INPUT_SIZE)) ==>
        && dictSize == (if dictDirective.UsingDictCtx? then 0 else old(dictSize)) + |src|
        && currentOffset == old(currentOffset) + |src| && (dictDirective.UsingDictCtx? ==> dictCtx == None)
      ensures tableKind == old(tableKind) || tableKind == Holds(tableType)
      ensures 0 < |src| <= MAX_INPUT_SIZE && tableType == ByU32 && directive == LimitedOutput ==>
        tableKind == Holds(ByU32)
      ensures tableKind == Cleared ==> currentOffset == old(currentOffset)
      ensures 0 < |src| <= MAX_INPUT_SIZE && directive != FillOutput && !(tableType == ByU16 && |src| >= LIMIT_64K) ==>
        var j := Job(dict + src, |dict|, old(currentOffset), tableType, dictDirective, small, hash);
        j.Valid() && PlanCarriedOut(j, old(hashTable[..]), BudgetOf(directive, dstCapacity), acceleration,
                                    dst[..result], hashTable[..])
    {
      hide Encodes, PlanCarriedOut;
      consumed := |src|;
      if |src| > MAX_INPUT_SIZE { return 0, consumed; }
      if |src| == 0 {
        if directive != NotLimited && dstCapacity == 0 { return 0, consumed; }
        dst[0] := 0;
        EmptyBlock(dict);
        assert dst[..1] == [0];
        assert src[..0] == [];
        return 1, 0;
      }
      if directive == FillOutput && dstCapacity < 1 { return 0, consumed; }
      if tableType == ByU16 && |src| >= LIMIT_64K { return 0, consumed; }
      result, consumed := CompressNonEmpty(src, dict, dst, dstCapacity, directive, tableType, dictDirective, small,
                                           acceleration, hash);
    }

    /** A block of at least one byte: the state is updated before compressing, whether that succeeds or not. */
    method CompressNonEmpty(src: Bytes, dict: Bytes, dst: array<byte>, dstCapacity: nat, directive: Directive,
                            tableType: TableType, dictDirective: DictDirective, small: bool, acceleration: nat,
                            hash: Bytes -> nat)
      returns (result: nat, consumed: nat)
      requires Valid() && acceleration >= 1 && 0 < |src| <= MAX_INPUT_SIZE
      requires !(tableType == ByU16 && |src| >= LIMIT_64K)
      requires if directive == NotLimited then CompressBound(|src|) <= dst.Length else dstCapacity <= dst.Length
      requires dictDirective.UsingDictCtx? || |dict| == dictSize
      requires tableKind == Cleared || tableKind == Holds(tableType)
      requires currentOffset + |src| <= MAX_OFFSET
      requires StateFits(|dict|, |src|, directive, tableType, dictDirective, small)
      modifies this, hashTable, dst
      ensures Valid() && consumed <= |src| && result <= dst.Length
      ensures directive != FillOutput ==> consumed == |src|
      ensures result > 0 ==> Encodes(dst[..result], dict, src[..consumed])
      ensures directive == NotLimited ==> result <= CompressBound(|src|)
      ensures directive != NotLimited ==> result <= dstCapacity
      ensures result == 0 ==>
        || (directive == FillOutput && dstCapacity == 0)
        || (directive == LimitedOutput && dstCapacity < CompressBound(|src|))
      ensures dictionary == old(dictionary) && tableKind == Holds(tableType)
      ensures currentOffset == old(currentOffset) + |src|
      ensures dictSize == (if dictDirective.UsingDictCtx? then 0 else old(dictSize)) + |src|
      ensures dictCtx == if dictDirective.UsingDictCtx? then None else old(dictCtx)
      ensures directive != FillOutput ==>
        var j := Job(dict + src, |dict|, old(currentOffset), tableType, dictDirective, small, hash);
        j.Valid() && PlanCarriedOut(j, old(hashTable[..]), BudgetOf(directive, dstCapacity), acceleration,
                                    dst[..result], hashTable[..])
    {
      hide Encodes, Job.EntryOk, Planned, AsPlanned;
      var j := Job(dict + src, |dict|, currentOffset, tableType, dictDirective, small, hash);
      JobStarts(j, directive);
      if dictDirective.UsingDictCtx? {
        dictCtx, dictSize := None, |src|;
        PlannedOldOrNew(j, hashTable[..], BudgetOf(directive, dstCapacity), acceleration);
      } else {
        dictSize := dictSize + |src|;
      }
      currentOffset := currentOffset + |src|;
      tableKind := Holds(tableType);
      result, consumed := CompressGenericValidated(hashTable, j, dst, dstCapacity, directive, acceleration);
      JobParts(dict, src, consumed);
      JobEnds(j);
    }

    static lemma JobParts(dict: Bytes, src: Bytes, n: nat)
      requires n <= |src|
      ensures (dict + src)[..|dict|] == dict && (dict + src)[|dict|..|dict| + n] == src[..n]
    {
    }

    /** `LZ4_prepareTable`: the table is kept when its entries can do no harm, and cleared otherwise. With
        32-bit indexes a gap of 64 KB puts what is kept out of reach. */
    method PrepareTable(inputSize: nat, tableType: TableType)
      requires Valid() && (tableKind == Cleared ==> currentOffset <= KB64) && inputSize <= MAX_INPUT_SIZE
      modifies this, hashTable
      ensures Valid() && dictionary == 0 && dictSize == 0 && dictCtx == None && currentOffset + inputSize <= MAX_OFFSET
      ensures tableKind == Cleared || tableKind == Holds(tableType)
      ensures tableKind == Cleared && currentOffset != 0 ==> old(tableKind) == Cleared && old(currentOffset) != 0
      ensures tableType == ByU16 && tableKind != Cleared ==> currentOffset + inputSize < 0xFFFF
      ensures tableType == ByU32 ==> forall h :: 0 <= h < hashTable.Length && hashTable[h] < currentOffset ==>
        hashTable[h] + DISTANCE_MAX < currentOffset
      ensures tableType == ByU32 ==> currentOffset == 0 || currentOffset >= KB64
    {
      if tableKind != Cleared {
        if tableKind != Holds(tableType)
          || (tableType == ByU16 && currentOffset + inputSize >= 0xFFFF)
          || (tableType == ByU32 && currentOffset > GB1)
          || inputSize >= KB4
        {
          ClearTable();
          currentOffset, tableKind := 0, Cleared;
        }
      }
      if currentOffset != 0 && tableType == ByU32 {
        currentOffset := currentOffset + KB64;
      }
      dictionary, dictSize, dictCtx := 0, 0, None;
    }

    /** `LZ4_compress_fast_extState`, on a state just initialised. */
    method CompressFast(src: Bytes, dst: array<byte>, maxOutputSize: nat, acceleration: int, hash: Bytes -> nat)
      returns (result: nat)
      requires Valid() && currentOffset == 0 && tableKind == Cleared && maxOutputSize <= dst.Length
      modifies this, hashTable, dst
      ensures Valid() && result <= maxOutputSize
      ensures result > 0 ==> Encodes(dst[..result], [], src)
      ensures result == 0 ==> |src| > MAX_INPUT_SIZE || maxOutputSize < CompressBound(|src|)
      ensures result > 0 ==> result <= CompressBound(|src|) || maxOutputSize < CompressBound(|src|)
      ensures |src| == 0 && result > 0 ==> dst[..result] == [0]
    {
      var accel := Accel(acceleration);
      var tableType := if |src| < LIMIT_64K then ByU16 else ByU32;
      var consumed;
      if maxOutputSize >= CompressBound(|src|) {
        result, consumed := CompressGeneric(src, [], dst, 0, NotLimited, tableType, NoDict, false, accel, hash);
      } else {
        result, consumed := CompressGeneric(src, [], dst, maxOutputSize, LimitedOutput, tableType, NoDict, false, accel,
                                            hash);
      }
      assert src[..|src|] == src;
    }

    /** `LZ4_compress_fast_extState_fastReset`: the state is reused without clearing its table. */
    method CompressFastReset(src: Bytes, dst: array<byte>, dstCapacity: nat, acceleration: int, hash: Bytes -> nat)
      returns (result: nat)
      requires Valid() && (tableKind == Cleared ==> currentOffset == 0) && |src| <= MAX_INPUT_SIZE
      requires dstCapacity <= dst.Length
      modifies this, hashTable, dst
      ensures Valid() && (tableKind == Cleared ==> currentOffset == 0) && result <= dstCapacity
      ensures result > 0 ==> Encodes(dst[..result], [], src)
      ensures result == 0 ==> dstCapacity < CompressBound(|src|)
      ensures |src| == 0 && result > 0 ==> dst[..result] == [0]
    {
      var accel := Accel(acceleration);
      var tableType := if |src| < LIMIT_64K then ByU16 else ByU32;
      PrepareTable(|src|, tableType);
      var small := tableType == ByU16 && currentOffset != 0;
      var consumed;
      if dstCapacity >= CompressBound(|src|) {
        result, consumed := CompressGeneric(src, [], dst, 0, NotLimited, tableType, NoDict, small, accel, hash);
      } else {
        result, consumed := CompressGeneric(src, [], dst, dstCapacity, LimitedOutput, tableType, NoDict, small, accel,
                                            hash);
      }
      assert src[..|src|] == src;
    }

    /** `LZ4_compress_destSize_extState`: compress as much of the input as fits the target. */
    method CompressDestSize(src: Bytes, dst: array<byte>, targetDstSize: nat, hash: Bytes -> nat)
      returns (result: nat, consumed: nat)
      requires Valid() && currentOffset == 0 && tableKind == Cleared && targetDstSize <= dst.Length
      modifies this, hashTable, dst
      ensures result <= targetDstSize && consumed <= |src|
      ensures result > 0 ==> Encodes(dst[..result], [], src[..consumed])
      ensures result == 0 ==> |src| > MAX_INPUT_SIZE || targetDstSize == 0
      ensures targetDstSize >= CompressBound(|src|) ==> consumed == |src|
      ensures |src| == 0 && result > 0 ==> dst[..result] == [0]
    {
      if targetDstSize >= CompressBound(|src|) {
        result := CompressFast(src, dst, targetDstSize, 1, hash);
        consumed := |src|;
        assert src[..|src|] == src;
      } else {
        var tableType := if |src| < LIMIT_64K then ByU16 else ByU32;
        result, consumed := CompressGeneric(src, [], dst, targetDstSize, FillOutput, tableType, NoDict, false, 1, hash);
      }
    }

    // -------------------------------------------------------------- streaming

    /** The dictionary region of the memory holds the end of the history. */
    ghost predicate DictHolds(mem: Bytes, history: Bytes)
      reads this
    {
      EndOf(mem, dictionary, dictSize, history)
    }

    /** The `n` bytes at `at` are the last of the history. */
    static ghost predicate EndOf(mem: Bytes, at: nat, n: nat, history: Bytes) {
      at + n <= |mem| && n <= |history| && mem[at..at + n] == history[|history| - n..]
    }

    /** What the caller owes before compressing the block at `source`: the dictionary is untouched, except
        where the block itself lies, and the block may only have overwritten its front. */
    ghost predicate DictAvailable(mem: Bytes, history: Bytes, source: nat, inputSize: nat)
      reads this
    {
      var dictEnd, sourceEnd := dictionary + dictSize, source + inputSize;
      && dictEnd <= |mem| && dictSize <= |history| && sourceEnd <= |mem|
      && (inputSize == 0 || dictSize == 0 || sourceEnd <= dictionary || source >= dictEnd || sourceEnd < dictEnd)
      && forall a :: dictionary <= a < dictEnd && !(source <= a < sourceEnd) ==>
           mem[a] == history[a - dictEnd + |history|]
    }

    /** `LZ4_renormDictT`: rescale the table before indexes grow too large. */
    method RenormDict(nextSize: nat)
      requires Valid()
      modifies `currentOffset, `dictionary, `dictSize, hashTable
      ensures Valid() && tableKind == old(tableKind)
      ensures nextSize <= MAX_INPUT_SIZE ==> currentOffset + nextSize <= MAX_OFFSET
      ensures dictSize <= old(dictSize) && dictionary + dictSize == old(dictionary + dictSize)
      ensures if old(currentOffset) + nextSize > MAX_OFFSET
        then currentOffset == KB64 && dictSize == Min(old(dictSize), KB64)
          && (forall h :: 0 <= h < hashTable.Length ==>
                hashTable[h] == Rescaled(old(hashTable[h]), Delta32(old(currentOffset))))
        else currentOffset == old(currentOffset) && dictSize == old(dictSize) && hashTable[..] == old(hashTable[..])
      ensures nextSize <= MAX_INPUT_SIZE ==>
        Rebased(old(currentOffset), old(hashTable[..]), currentOffset, hashTable[..])
      ensures hashTable[..] == RenormedTable(old(currentOffset), old(hashTable[..]), nextSize)
    {
      if currentOffset + nextSize > MAX_OFFSET {
        var delta := Delta32(currentOffset);
        var dictEnd := dictionary + dictSize;
        var i := 0;
        while i < hashTable.Length
          modifies hashTable
          invariant 0 <= i <= hashTable.Length
          invariant forall h :: 0 <= h < i ==> hashTable[h] == Rescaled(old(hashTable[h]), delta)
          invariant forall h :: i <= h < hashTable.Length ==> hashTable[h] == old(hashTable[h])
        {
          if hashTable[i] < delta { hashTable[i] := 0; } else { hashTable[i] := hashTable[i] - delta; }
          i := i + 1;
        }
        currentOffset := KB64;
        if dictSize > KB64 { dictSize := KB64; }
        dictionary := dictEnd - dictSize;
      }
    }

    /** Which part of the dictionary the next block may use, and whether it directly precedes the block. */
    method LocateDict(source: nat, inputSize: nat, ghost mem: Bytes, ghost history: Bytes) returns (prefix: bool)
      requires Valid() && DictAvailable(mem, history, source, inputSize)
      modifies `currentOffset, `dictionary, `dictSize, hashTable
      ensures dictCtx == None ==> (Now(), prefix) == old(Now().Located(source, inputSize))
      ensures hashTable[..] == RenormedTable(old(currentOffset), old(hashTable[..]), inputSize)
      ensures Valid() && tableKind == old(tableKind) && DictHolds(mem, history)
      ensures inputSize <= MAX_INPUT_SIZE ==> currentOffset + inputSize <= MAX_OFFSET
      ensures prefix ==> dictionary + dictSize == source
      ensures prefix ==> dictionary == source || (old(dictionary + dictSize) == source && dictionary >= old(dictionary))
      ensures !prefix && inputSize > 0 && dictCtx == None ==> dictSize == 0 || dictSize >= 4
      ensures dictSize <= old(dictSize)
      ensures dictCtx != None ==> (prefix <==> old(dictSize) > 0 && old(dictionary + dictSize) == source)
      ensures old(currentOffset) >= KB64 ==> currentOffset >= KB64
      ensures inputSize <= MAX_INPUT_SIZE ==>
        Rebased(old(currentOffset), old(hashTable[..]), currentOffset, hashTable[..])
      ensures dictSize > 0 ==>
        && dictionary + dictSize == old(dictionary + dictSize) && dictionary >= old(dictionary)
        && (inputSize == 0 || source >= dictionary + dictSize || source + inputSize <= dictionary)
    {
      hide Rebased, DictHolds, RenormedTable;
      var NULL := -1;
      var dictEnd: int := if dictSize > 0 then dictionary + dictSize else NULL;
      RenormDict(inputSize);
      prefix := CutDict(source, inputSize, dictEnd, mem, history);
    }

    /** What is dropped of the dictionary: all of it if it is too short for use, and its front where the block lies. */
    method CutDict(source: nat, inputSize: nat, dictEnd0: int, ghost mem: Bytes, ghost history: Bytes)
      returns (prefix: bool)
      requires DictAvailable(mem, history, source, inputSize)
      requires dictEnd0 == if dictSize > 0 || dictEnd0 >= 0 then dictionary + dictSize else -1
      modifies `dictionary, `dictSize
      ensures dictCtx == None ==> (Now(), prefix) == old(Now()).Cut(source, inputSize, dictEnd0)
      ensures DictHolds(mem, history) && dictSize <= old(dictSize)
      ensures dictCtx != None ==> (prefix <==> dictEnd0 == source)
      ensures prefix ==> dictionary + dictSize == source
      ensures prefix ==> dictionary == source || (old(dictionary + dictSize) == source && dictionary >= old(dictionary))
      ensures !prefix && inputSize > 0 && dictCtx == None ==> dictSize == 0 || dictSize >= 4
      ensures dictSize > 0 ==>
        && dictionary + dictSize == old(dictionary + dictSize) && dictionary >= old(dictionary)
        && (inputSize == 0 || source >= dictionary + dictSize || source + inputSize <= dictionary)
    {
      var dictEnd := dictEnd0;
      if dictSize < 4 && dictEnd != source && inputSize > 0 && dictCtx == None {
        dictSize, dictionary, dictEnd := 0, source, source;
      }
      var sourceEnd := source + inputSize;
      if sourceEnd > dictionary && sourceEnd < dictEnd {
        dictSize := dictEnd - sourceEnd;
        if dictSize > KB64 { dictSize := KB64; }
        if dictSize < 4 { dictSize := 0; }
        dictionary := dictEnd - dictSize;
      }
      prefix := dictEnd == source;
      DictStillHolds(mem, history);
    }

    lemma DictStillHolds(mem: Bytes, history: Bytes)
      requires dictionary + dictSize <= |mem| && dictSize <= |history|
      requires var dictEnd := dictionary + dictSize;
        forall a :: dictionary <= a < dictEnd ==> mem[a] == history[a - dictEnd + |history|]
      ensures DictHolds(mem, history)
    {
    }

    /** `LZ4_compress_fast_continue`, without an attached dictionary context. Whatever ran before, the block is
        written so that it decodes after the whole history, and even after just the last `used` bytes of it, which
        the block has not overwritten. The dictionary again holds the end of the history, whether the block fitted
        its budget or not. */
    method CompressFastContinue(mem: array<byte>, source: nat, inputSize: nat, dst: array<byte>, maxOutputSize: nat,
                                acceleration: int, hash: Bytes -> nat, ghost history: Bytes)
      returns (result: nat, ghost used: nat, ghost prefix: bool)
      requires Valid() && mem != dst && maxOutputSize <= dst.Length && StreamMode()
      requires inputSize <= 0x7FFF_FFFF && DictAvailable(mem[..], history, source, inputSize)
      modifies this, hashTable, dst
      ensures result <= maxOutputSize && StreamMode()
      ensures inputSize <= MAX_INPUT_SIZE ==> Valid()
      ensures result == 0 ==> inputSize > MAX_INPUT_SIZE || maxOutputSize < CompressBound(inputSize)
      ensures result > 0 ==>
        inputSize <= MAX_INPUT_SIZE && Encodes(dst[..result], history, mem[source..source + inputSize])
      ensures (0 < inputSize <= MAX_INPUT_SIZE) || result > 0 ==>
        DictHolds(mem[..], history + mem[source..source + inputSize])
      ensures 0 < inputSize <= MAX_INPUT_SIZE ==>
        && tableKind == Holds(ByU32) && dictionary + dictSize == source + inputSize
        && (dictionary == source || (old(dictionary + dictSize) == source && dictionary >= old(dictionary)))
      ensures inputSize == 0 && dictSize > 0 ==>
        dictionary + dictSize == old(dictionary + dictSize) && dictionary >= old(dictionary)
      ensures inputSize == 0 && result > 0 ==> dst[..result] == [0]
      ensures inputSize <= MAX_INPUT_SIZE ==> Now() == old(Now()).After(source, inputSize)
      ensures inputSize == 0 ==> hashTable[..] == old(hashTable[..])
      ensures 0 < inputSize <= MAX_INPUT_SIZE ==>
        CarriedOut(old(Now()), old(hashTable[..]), source, history, mem[source..source + inputSize], hash,
                   maxOutputSize, Accel(acceleration), dst[..result], hashTable[..])
      ensures used <= old(dictSize)
      ensures used > 0 && inputSize > 0 ==>
        source >= old(dictionary + dictSize) || source + inputSize <= old(dictionary + dictSize) - used
      ensures result > 0 ==> Encodes(dst[..result], history[|history| - used..], mem[source..source + inputSize])
      ensures 0 < inputSize <= MAX_INPUT_SIZE ==>
        && used <= |history|
        && PlannedWithoutRenorm(history[|history| - used..], mem[source..source + inputSize], old(currentOffset),
                                prefix, hash,
                                old(hashTable[..]), maxOutputSize, Accel(acceleration), dst[..result])
    {
      hide Encodes, DictHolds, PlanCarriedOut, Rebased, PlannedWithoutRenorm, StreamJob, RescaledAll, Where.Located;
      var accel := Accel(acceleration);
      var preceding := LocateDict(source, inputSize, mem[..], history);
      used, prefix := dictSize, preceding;
      DictFacts(mem[..], history);
      ghost var start, table := currentOffset, hashTable[..];
      result := CompressAt(mem, source, inputSize, dst, maxOutputSize, accel, hash, preceding, history);
      if 0 < inputSize <= MAX_INPUT_SIZE {
        RenormUnseen(history[|history| - used..], mem[source..source + inputSize], old(currentOffset), start, prefix,
                     hash,
                     old(hashTable[..]), table, maxOutputSize, accel, dst[..result], hashTable[..]);
      }
    }

    /** The block at `source` after the dictionary, which precedes it directly or lies elsewhere. */
    method CompressAt(mem: array<byte>, source: nat, inputSize: nat, dst: array<byte>, maxOutputSize: nat, accel: nat,
                      hash: Bytes -> nat, prefix: bool, ghost history: Bytes)
      returns (result: nat)
      requires Valid() && mem != dst && maxOutputSize <= dst.Length && Uses32() && accel >= 1
      requires source + inputSize <= mem.Length && DictHolds(mem[..], history)
      requires inputSize <= MAX_INPUT_SIZE ==> currentOffset + inputSize <= MAX_OFFSET
      requires if prefix then dictionary + dictSize == source else inputSize > 0 ==> dictSize == 0 || dictSize >= 4
      modifies this, hashTable, dst
      ensures result <= maxOutputSize && Uses32() && dictCtx == old(dictCtx)
      ensures inputSize <= MAX_INPUT_SIZE ==> Valid()
      ensures result == 0 ==> inputSize > MAX_INPUT_SIZE || maxOutputSize < CompressBound(inputSize)
      ensures result > 0 ==>
        inputSize <= MAX_INPUT_SIZE && Encodes(dst[..result], history, mem[source..source + inputSize])
      ensures (0 < inputSize <= MAX_INPUT_SIZE) || result > 0 ==>
        DictHolds(mem[..], history + mem[source..source + inputSize])
      ensures 0 < inputSize <= MAX_INPUT_SIZE ==>
        tableKind == Holds(ByU32) && dictionary + dictSize == source + inputSize
        && if prefix then dictionary == old(dictionary) else dictionary == source
      ensures inputSize == 0 && dictSize > 0 ==> dictionary == old(dictionary) && dictSize == old(dictSize)
      ensures inputSize <= MAX_INPUT_SIZE ==>
        && currentOffset == old(currentOffset) + inputSize
        && if prefix then dictionary == old(dictionary) && dictSize == old(dictSize) + inputSize
           else dictionary == source && dictSize == inputSize
      ensures inputSize == 0 && result > 0 ==> dst[..result] == [0]
      ensures inputSize == 0 ==> hashTable[..] == old(hashTable[..])
      ensures old(dictSize) <= |history|
      ensures result > 0 ==>
        Encodes(dst[..result], history[|history| - old(dictSize)..], mem[source..source + inputSize])
      ensures 0 < inputSize <= MAX_INPUT_SIZE ==>
        var j := StreamJob(history[|history| - old(dictSize)..], mem[source..source + inputSize], old(currentOffset),
                           ModeOf(prefix), hash);
        j.Valid() && PlanCarriedOut(j, old(hashTable[..]), Limited(maxOutputSize), accel, dst[..result], hashTable[..])
    {
      hide Encodes, StateFits, EndOf, PlanCarriedOut, StreamJob, DictSmall;
      ghost var all := mem[..];
      DictFacts(all, history);
      var block := mem[source..source + inputSize];
      var dict := mem[dictionary..dictionary + dictSize];
      assert block == all[source..source + inputSize] && dict == all[dictionary..dictionary + dictSize];
      var small := DictSmall(dictSize, currentOffset);
      FitsStreaming(inputSize, ModeOf(prefix));
      if prefix {
        PrefixGrows(all, dictionary, dictSize, inputSize, history, block);
      } else {
        NewDict(all, source, inputSize, history, block);
      }
      result := CompressBlock(block, dict, dst, maxOutputSize, ModeOf(prefix), small, accel, hash, history);
      if !prefix { dictionary, dictSize := source, inputSize; }
      assert mem[..] == all;
    }

    lemma DictFacts(mem: Bytes, history: Bytes)
      requires DictHolds(mem, history)
      ensures dictionary + dictSize <= |mem| && dictSize <= |history|
      ensures mem[dictionary..dictionary + dictSize] == history[|history| - dictSize..]
    {
    }

    lemma HoldsNow(mem: Bytes, history: Bytes)
      requires dictionary + dictSize <= |mem| && dictSize <= |history|
      requires mem[dictionary..dictionary + dictSize] == history[|history| - dictSize..]
      ensures DictHolds(mem, history)
    {
    }

    /** One block after a dictionary that ends the history. */
    method CompressBlock(block: Bytes, dict: Bytes, dst: array<byte>, maxOutputSize: nat, mode: DictDirective,
                         small: bool, accel: nat, hash: Bytes -> nat, ghost history: Bytes)
      returns (result: nat)
      requires Valid() && maxOutputSize <= dst.Length && Uses32() && accel >= 1 && |dict| == dictSize
      requires |dict| <= |history| && history[|history| - |dict|..] == dict
      requires |block| <= MAX_INPUT_SIZE ==> currentOffset + |block| <= MAX_OFFSET
      requires |block| > 0 ==> StateFits(|dict|, |block|, LimitedOutput, ByU32, mode, small)
      requires small == DictSmall(dictSize, currentOffset) && !mode.UsingDictCtx?
      modifies this, hashTable, dst
      ensures Valid() && result <= maxOutputSize && Uses32() && dictionary == old(dictionary) && dictCtx == old(dictCtx)
      ensures 0 < |block| <= MAX_INPUT_SIZE ==>
        var j := StreamJob(dict, block, old(currentOffset), mode, hash);
        j.Valid() && PlanCarriedOut(j, old(hashTable[..]), Limited(maxOutputSize), accel, dst[..result], hashTable[..])
      ensures result == 0 ==> |block| > MAX_INPUT_SIZE || maxOutputSize < CompressBound(|block|)
      ensures result > 0 ==>
        |block| <= MAX_INPUT_SIZE && Encodes(dst[..result], history, block) && Encodes(dst[..result], dict, block)
      ensures |block| == 0 && result > 0 ==> dst[..result] == [0]
      ensures |block| == 0 ==> hashTable[..] == old(hashTable[..])
      ensures |block| == 0 ==> dictSize == old(dictSize) && currentOffset == old(currentOffset)
      ensures 0 < |block| <= MAX_INPUT_SIZE ==>
        tableKind == Holds(ByU32) && dictSize == old(dictSize) + |block|
        && currentOffset == old(currentOffset) + |block|
    {
      hide Encodes, StateFits, PlanCarriedOut;
      var consumed;
      result, consumed := CompressGeneric(block, dict, dst, maxOutputSize, LimitedOutput, ByU32, mode, small, accel,
                                          hash);
      AfterHistory(dst[..result], history, dict, block, consumed);
    }

    lemma FitsStreaming(inputSize: nat, mode: DictDirective)
      requires Valid()
      requires inputSize > 0 ==> mode == WithPrefix64k || (mode == UsingExtDict && (dictSize == 0 || dictSize >= 4))
      ensures inputSize > 0 ==>
        StateFits(dictSize, inputSize, LimitedOutput, ByU32, mode, DictSmall(dictSize, currentOffset))
    {
    }

    static lemma NewDict(mem: Bytes, source: nat, inputSize: nat, history: Bytes, block: Bytes)
      requires source + inputSize <= |mem| && block == mem[source..source + inputSize]
      ensures EndOf(mem, source, inputSize, history + block)
    {
    }

    /** A block that decodes after the dictionary decodes after the whole history that ends with it. */
    static lemma AfterHistory(b: Bytes, history: Bytes, dict: Bytes, block: Bytes, consumed: nat)
      requires |dict| <= |history| && history[|history| - |dict|..] == dict && consumed == |block|
      ensures Encodes(b, dict, block[..consumed]) ==> Encodes(b, history, block) && Encodes(b, dict, block)
    {
      hide Encodes;
      assert block[..consumed] == block;
      assert history == history[..|history| - |dict|] + dict;
      EncodesWindow(b, history[..|history| - |dict|], dict, block);
    }

    static lemma PrefixGrows(mem: Bytes, dictionary: nat, dictSize: nat, inputSize: nat, history: Bytes, block: Bytes)
      requires EndOf(mem, dictionary, dictSize, history) && dictionary + dictSize + inputSize <= |mem|
      requires mem[dictionary + dictSize..dictionary + dictSize + inputSize] == block
      ensures EndOf(mem, dictionary, dictSize + inputSize, history + block)
    {
      assert mem[dictionary..dictionary + dictSize + inputSize] == mem[dictionary..dictionary + dictSize] + block;
      assert (history + block)[|history| - dictSize..] == history[|history| - dictSize..] + block;
    }

    /** `LZ4_saveDict`: the last bytes of the dictionary move to `safeBuffer`, which may overlap them. */
    method SaveDict(mem: array<byte>, safeBuffer: nat, size: int, ghost history: Bytes) returns (saved: nat)
      requires Valid() && DictHolds(mem[..], history)
      requires safeBuffer + Min(dictSize, KB64) <= mem.Length
      modifies `dictionary, `dictSize, mem
      ensures Valid() && tableKind == old(tableKind) && currentOffset == old(currentOffset)
      ensures saved == Min(if 0 <= size then Min(size, KB64) else KB64, old(dictSize))
      ensures dictionary == safeBuffer && dictSize == saved && DictHolds(mem[..], history)
      ensures forall i :: 0 <= i < mem.Length && !(safeBuffer <= i < safeBuffer + saved) ==> mem[i] == old(mem[i])
    {
      hide EndOf;
      DictFacts(mem[..], history);
      saved := if 0 <= size <= KB64 then size else KB64;
      if saved > dictSize { saved := dictSize; }
      var from := dictionary + dictSize - saved;
      ghost var before := mem[..];
      SuffixOfDict(before, history, saved);
      Memmove(mem, safeBuffer, from, saved);
      ghost var after := mem[..];
      dictionary, dictSize := safeBuffer, saved;
      assert after[safeBuffer..safeBuffer + saved] == before[from..from + saved];
      HoldsNow(after, history);
    }

    lemma SuffixOfDict(mem: Bytes, history: Bytes, n: nat)
      requires DictHolds(mem, history) && n <= dictSize
      ensures mem[dictionary + dictSize - n..dictionary + dictSize] == history[|history| - n..]
    {
      assert mem[dictionary + dictSize - n..dictionary + dictSize]
        == mem[dictionary..dictionary + dictSize][dictSize - n..];
    }

    /** `LZ4_loadDict`: start a stream after a given dictionary, indexing every third position of its last 64 KB. */
    method LoadDict(mem: array<byte>, dictStart: nat, size: nat, hash: Bytes -> nat) returns (loaded: nat)
      requires hashTable.Length > 0 && dictStart + size <= mem.Length
      modifies this, hashTable
      ensures Valid() && StreamMode() && Loaded()
      ensures loaded == dictSize == if size < 8 then 0 else Min(size, KB64)
      ensures DictHolds(mem[..], mem[..][dictStart..dictStart + size])
    {
      ClearTable();
      currentOffset, tableKind, dictionary, dictSize, dictCtx := KB64, Cleared, 0, 0, None;
      loaded := 0;
      if size >= 8 {
        var dictEnd := dictStart + size;
        var p := if size > KB64 then dictEnd - KB64 else dictStart;
        dictionary, dictSize, tableKind := p, dictEnd - p, Holds(ByU32);
        loaded := dictSize;
        IndexDict(mem, p, dictEnd, hash);
      }
      hide DictHolds, Indexed, Valid;
      TableLoaded();
      LoadedDict(mem[..], dictStart, size);
    }

    lemma TableLoaded()
      requires hashTable.Length > 0 && currentOffset == KB64 && (dictSize == 0 || MINMATCH <= dictSize <= KB64)
      requires if dictSize == 0 then tableKind == Cleared && forall h :: 0 <= h < hashTable.Length ==> hashTable[h] == 0
        else tableKind == Holds(ByU32)
      requires dictSize > 0 ==> forall h :: 0 <= h < hashTable.Length ==>
        hashTable[h] == 0 || KB64 - dictSize <= hashTable[h] <= KB64 - MINMATCH
      ensures Valid() && Loaded()
    {
    }

    lemma LoadedDict(mem: Bytes, dictStart: nat, size: nat)
      requires dictStart + size <= |mem|
      requires (dictionary == 0 && dictSize == 0) || (dictSize <= size && dictionary + dictSize == dictStart + size)
      ensures DictHolds(mem, mem[dictStart..dictStart + size])
    {
      var history := mem[dictStart..dictStart + size];
      assert mem[dictionary..dictionary + dictSize] == history[|history| - dictSize..];
    }

    method ClearTable()
      modifies hashTable
      ensures forall h :: 0 <= h < hashTable.Length ==> hashTable[h] == 0
    {
      forall h | 0 <= h < hashTable.Length { hashTable[h] := 0; }
    }

    method IndexDict(mem: array<byte>, start: nat, dictEnd: nat, hash: Bytes -> nat)
      requires hashTable.Length > 0 && dictEnd <= mem.Length && dictEnd - KB64 <= start
      requires forall h :: 0 <= h < hashTable.Length ==> hashTable[h] == 0
      modifies hashTable
      ensures forall h :: 0 <= h < hashTable.Length ==>
        hashTable[h] == 0 || KB64 - (dictEnd - start) <= hashTable[h] <= KB64 - MINMATCH
    {
      var p := start;
      while p <= dictEnd - 8
        invariant start <= p
        invariant forall h :: 0 <= h < hashTable.Length ==>
          hashTable[h] == 0 || KB64 - (dictEnd - start) <= hashTable[h] <= KB64 - MINMATCH
      {
        var h := hash(mem[p..p + 8]) % hashTable.Length;
        hashTable[h] := p - dictEnd + KB64;
        p := p + 3;
      }
    }

    // -------------------------------------------------------------- attached dictionaries

    /** As `LZ4_loadDict` leaves a stream: what is indexed lies in the dictionary and ends at 64 KB. */
    ghost predicate Loaded()
      reads this, hashTable
    {
      currentOffset == KB64 && (dictSize > 0 ==> Indexed(hashTable[..], dictSize))
    }

    /** `LZ4_attach_dictionary`: an empty dictionary is not attached. */
    method AttachDictionary(dictionaryStream: Stream?)
      requires Valid()
      requires dictionaryStream != null ==>
        dictionaryStream.Loaded() && dictionaryStream.hashTable.Length == hashTable.Length
      modifies `currentOffset, `dictCtx
      ensures Valid()
      ensures currentOffset == if dictionaryStream != null && old(currentOffset) == 0 then KB64 else old(currentOffset)
      ensures dictCtx == if dictionaryStream == null || dictionaryStream.dictSize == 0 then None
        else Some(DictCtx(dictionaryStream.hashTable[..], dictionaryStream.dictionary, dictionaryStream.dictSize))
    {
      var ctx: Option<DictCtx> := None;
      if dictionaryStream != null {
        if dictionaryStream.dictSize != 0 {
          ctx := Some(DictCtx(dictionaryStream.hashTable[..], dictionaryStream.dictionary, dictionaryStream.dictSize));
        }
        if currentOffset == 0 { currentOffset := KB64; }
      }
      dictCtx := ctx;
    }

    /** A usable dictionary stream is attached; its dictionary ends the history. */
    ghost predicate Attached(mem: Bytes, history: Bytes)
      reads `dictCtx, `currentOffset
    {
      && dictCtx.Some? && dictCtx.value.Valid() && |dictCtx.value.table| == hashTable.Length && currentOffset >= KB64
      && EndOf(mem, dictCtx.value.dictionary, dictCtx.value.dictSize, history)
    }

    lemma AttachedNow(dictionaryStream: Stream, mem: Bytes, history: Bytes)
      requires dictionaryStream.Loaded() && dictionaryStream.DictHolds(mem, history) && dictionaryStream.dictSize > 0
      requires |dictionaryStream.hashTable[..]| == hashTable.Length > 0 && currentOffset >= KB64
      requires dictCtx
        == Some(DictCtx(dictionaryStream.hashTable[..], dictionaryStream.dictionary, dictionaryStream.dictSize))
      ensures Attached(mem, history)
    {
    }

    /** The block is the one that is written after copying the dictionary stream over this one. */
    ghost predicate AsIfCopied(ctx: DictCtx, mem: Bytes, block: Bytes, olimit: nat, acceleration: nat,
                               hash: Bytes -> nat, written: Bytes)
    {
      && ctx.Valid() && ctx.dictionary + ctx.dictSize <= |mem| && acceleration >= 1
      && var j := CopiedJob(mem[ctx.dictionary..ctx.dictionary + ctx.dictSize], block, hash);
      j.Valid() && AsPlanned(Planned(j, ctx.table, Limited(olimit), acceleration).0, written)
    }

    /**
      `LZ4_compress_fast_continue` with an attached dictionary stream. Unless the block directly follows the stream's
      own dictionary, it is written so that it decodes after the attached dictionary, and it is the very block that
      copying the dictionary stream would give, whatever the stream held; the dictionary is then detached and the
      block becomes the new one. A block that does follow the own dictionary is compressed after that one instead,
      and the attached one stays.
    */
    method CompressFastContinueAttached(mem: array<byte>, source: nat, inputSize: nat, dst: array<byte>,
                                        maxOutputSize: nat, acceleration: int, hash: Bytes -> nat, ghost own: Bytes,
                                        ghost history: Bytes)
      returns (result: nat)
      requires Valid() && Uses32() && Attached(mem[..], history) && mem != dst && maxOutputSize <= dst.Length
      requires inputSize <= 0x7FFF_FFFF && DictAvailable(mem[..], own, source, inputSize)
      modifies this, hashTable, dst
      ensures result <= maxOutputSize && Uses32() && (inputSize <= MAX_INPUT_SIZE ==> Valid())
      ensures result == 0 ==> inputSize > MAX_INPUT_SIZE || maxOutputSize < CompressBound(inputSize)
      ensures var follows := old(dictSize) > 0 && old(dictionary + dictSize) == source;
        var h, block := if follows then own else history, mem[source..source + inputSize];
        && (result > 0 ==> Encodes(dst[..result], h, block))
        && ((0 < inputSize <= MAX_INPUT_SIZE) || result > 0 ==> DictHolds(mem[..], h + block))
        && (follows || inputSize == 0 ==> dictCtx == old(dictCtx))
        && (!follows && 0 < inputSize <= MAX_INPUT_SIZE ==>
              && StreamMode() && dictionary == source && dictSize == inputSize
              && AsIfCopied(old(dictCtx.value), mem[..], block, maxOutputSize, Accel(acceleration), hash,
                            dst[..result]))
    {
      hide Encodes, DictHolds, PlanCarriedOut, Rebased, StreamJob, EndOf, AsIfCopied, DictCtx.Valid, StateFits;
      var preceding := LocateDict(source, inputSize, mem[..], own);
      if preceding {
        result := CompressAt(mem, source, inputSize, dst, maxOutputSize, Accel(acceleration), hash, true, own);
      } else {
        result := CompressAfterCtx(mem, source, inputSize, dst, maxOutputSize, Accel(acceleration), hash, history);
      }
    }

    /** The block after the attached dictionary: large blocks copy its table, small ones look into both. */
    method CompressAfterCtx(mem: array<byte>, source: nat, inputSize: nat, dst: array<byte>, maxOutputSize: nat,
                            accel: nat, hash: Bytes -> nat, ghost history: Bytes)
      returns (result: nat)
      requires Valid() && Uses32() && Attached(mem[..], history) && mem != dst && maxOutputSize <= dst.Length
      requires source + inputSize <= mem.Length && accel >= 1
      requires inputSize <= MAX_INPUT_SIZE ==> currentOffset + inputSize <= MAX_OFFSET
      modifies this, hashTable, dst
      ensures result <= maxOutputSize && Uses32() && (inputSize <= MAX_INPUT_SIZE ==> Valid())
      ensures result == 0 ==> inputSize > MAX_INPUT_SIZE || maxOutputSize < CompressBound(inputSize)
      ensures var block := mem[source..source + inputSize];
        && (result > 0 ==> Encodes(dst[..result], history, block))
        && ((0 < inputSize <= MAX_INPUT_SIZE) || result > 0 ==> DictHolds(mem[..], history + block))
        && (inputSize == 0 ==> dictCtx == old(dictCtx))
        && (0 < inputSize <= MAX_INPUT_SIZE ==>
              && StreamMode() && dictionary == source && dictSize == inputSize
              && AsIfCopied(old(dictCtx.value), mem[..], block, maxOutputSize, accel, hash, dst[..result]))
    {
      hide Encodes, PlanCarriedOut, AsIfCopied, StateFits, EndOf;
      ghost var all := mem[..];
      var ctx := dictCtx.value;
      CtxFacts(all, history);
      var block := mem[source..source + inputSize];
      var dict := mem[ctx.dictionary..ctx.dictionary + ctx.dictSize];
      var consumed;
      if inputSize > KB4 {
        CopyCtx(ctx);
        FitsCopied(ctx, inputSize);
        result, consumed := CompressGeneric(block, dict, dst, maxOutputSize, LimitedOutput, ByU32, UsingExtDict, false,
                                            accel, hash);
        if inputSize <= MAX_INPUT_SIZE {
          CarriedOutCopied(ctx, all, block, maxOutputSize, accel, hash, dst[..result], hashTable[..]);
        }
      } else {
        ghost var start, own := currentOffset, hashTable[..];
        FitsAttached(ctx, inputSize);
        result, consumed := CompressGeneric(block, dict, dst, maxOutputSize, LimitedOutput, ByU32,
                                            UsingDictCtx(ctx.table, currentOffset - KB64), false, accel, hash);
        if inputSize > 0 {
          CarriedOutAttached(ctx, all, block, start, own, maxOutputSize, accel, hash, dst[..result], hashTable[..]);
        }
      }
      AfterHistory(dst[..result], history, dict, block, consumed);
      dictionary, dictSize := source, inputSize;
      NewDict(all, source, inputSize, history, block);
    }

    lemma CtxFacts(mem: Bytes, history: Bytes)
      requires Attached(mem, history)
      ensures var ctx := dictCtx.value;
        && ctx.dictionary + ctx.dictSize <= |mem| && MINMATCH <= ctx.dictSize <= KB64 && ctx.dictSize <= |history|
        && mem[ctx.dictionary..ctx.dictionary + ctx.dictSize] == history[|history| - ctx.dictSize..]
    {
    }

    /** `LZ4_memcpy` of the dictionary stream. */
    method CopyCtx(ctx: DictCtx)
      requires ctx.Valid() && |ctx.table| == hashTable.Length
      modifies this, hashTable
      ensures Valid() && hashTable[..] == ctx.table && currentOffset == KB64 && tableKind == Holds(ByU32)
      ensures dictionary == ctx.dictionary && dictSize == ctx.dictSize && dictCtx == None
    {
      forall h | 0 <= h < hashTable.Length { hashTable[h] := ctx.table[h]; }
      currentOffset, tableKind, dictionary, dictSize, dictCtx := KB64, Holds(ByU32), ctx.dictionary, ctx.dictSize, None;
      assert hashTable[..] == ctx.table;
    }

    lemma FitsCopied(ctx: DictCtx, inputSize: nat)
      requires ctx.Valid() && hashTable[..] == ctx.table && currentOffset == KB64
      ensures StateFits(ctx.dictSize, inputSize, LimitedOutput, ByU32, UsingExtDict, false)
    {
    }

    lemma FitsAttached(ctx: DictCtx, inputSize: nat)
      requires ctx.Valid() && |ctx.table| == hashTable.Length && currentOffset >= KB64
      ensures StateFits(ctx.dictSize, inputSize, LimitedOutput, ByU32, UsingDictCtx(ctx.table, currentOffset - KB64),
                        false)
    {
    }

    lemma CarriedOutCopied(ctx: DictCtx, mem: Bytes, block: Bytes, olimit: nat, accel: nat, hash: Bytes -> nat,
                           written: Bytes, after: seq<nat>)
      requires ctx.Valid() && ctx.dictionary + ctx.dictSize <= |mem|
      requires var dict := mem[ctx.dictionary..ctx.dictionary + ctx.dictSize];
        var j := Job(dict + block, |dict|, KB64, ByU32, UsingExtDict, false, hash);
        j.Valid() && PlanCarriedOut(j, ctx.table, Limited(olimit), accel, written, after)
      ensures AsIfCopied(ctx, mem, block, olimit, accel, hash, written)
    {
      hide Planned, AsPlanned;
    }

    lemma CarriedOutAttached(ctx: DictCtx, mem: Bytes, block: Bytes, start: nat, own: seq<nat>, olimit: nat, accel: nat,
                             hash: Bytes -> nat, written: Bytes, after: seq<nat>)
      requires ctx.Valid() && ctx.dictionary + ctx.dictSize <= |mem| && start >= KB64 && |own| == |ctx.table|
      requires forall h :: 0 <= h < |own| ==> own[h] < start
      requires var dict := mem[ctx.dictionary..ctx.dictionary + ctx.dictSize];
        var j := Job(dict + block, |dict|, start, ByU32, UsingDictCtx(ctx.table, start - KB64), false, hash);
        j.Valid() && PlanCarriedOut(j, own, Limited(olimit), accel, written, after)
      ensures AsIfCopied(ctx, mem, block, olimit, accel, hash, written)
    {
      hide Planned, AsPlanned;
      var dict := mem[ctx.dictionary..ctx.dictionary + ctx.dictSize];
      AttachedAsCopied(dict, block, start, own, ctx.table, hash, Limited(olimit), accel);
    }

    /** What a directive demands of the state: nothing before the block without a dictionary; a dictionary of
        at least four bytes when it is external; and no reliance on entries outside the dictionary. */
    ghost predicate StateFits(dictLength: nat, size: nat, directive: Directive, tableType: TableType,
                              dict: DictDirective, small: bool)
      reads this, hashTable
    {
      && dictLength <= currentOffset
      && (dict == NoDict ==> dictLength == 0)
      && (dict == UsingExtDict ==> dictLength == 0 || dictLength >= MINMATCH)
      && (dict.UsingDictCtx? ==>
            && tableType == ByU32 && directive != FillOutput && KB64 <= currentOffset
            && |dict.entries| == hashTable.Length && dict.dictDelta == currentOffset - KB64
            && !small && Indexed(dict.entries, dictLength))
      && (tableType == ByU16 ==> dict == NoDict && (size < LIMIT_64K ==> currentOffset + size < LIMIT_64K))
      && (directive == FillOutput ==> currentOffset == 0)
      && (!small && !dict.UsingDictCtx? ==>
            forall h :: 0 <= h < hashTable.Length && hashTable[h] < currentOffset - dictLength ==>
            tableType == ByU32 && hashTable[h] + DISTANCE_MAX < currentOffset)
    }

    lemma JobStarts(j: Job, directive: Directive)
      requires Valid() && j.start == currentOffset && j.s0 < |j.v|
      requires tableKind == Cleared || tableKind == Holds(j.tableType)
      requires !(j.tableType == ByU16 && |j.v| - j.s0 >= LIMIT_64K)
      requires StateFits(j.s0, |j.v| - j.s0, directive, j.tableType, j.dict, j.small)
      ensures j.Valid() && j.TableOk(hashTable[..], Max(j.start, 1))
    {
    }

    lemma JobEnds(j: Job)
      requires j.s0 <= j.start && j.s0 < |j.v| && j.start + (|j.v| - j.s0) == currentOffset
      requires j.TableOk(hashTable[..], Max(Max(j.start, 1), |j.v| - MFLIMIT + 1 + j.Delta()))
      requires j.dict.UsingDictCtx? ==>
        forall h :: 0 <= h < hashTable.Length && hashTable[h] < j.start ==>
          hashTable[h] == 0 || hashTable[h] + MINMATCH <= j.start
      requires j.dict.UsingDictCtx? ==> j.tableType == ByU32
      ensures forall h :: 0 <= h < hashTable.Length ==> hashTable[h] == 0 || hashTable[h] + MINMATCH <= currentOffset
      ensures j.tableType == ByU16 ==> forall h :: 0 <= h < hashTable.Length ==> hashTable[h] < 0x1_0000
    {
      forall h | 0 <= h < hashTable.Length
        ensures hashTable[h] == 0 || hashTable[h] + MINMATCH <= currentOffset
        ensures j.tableType == ByU16 ==> hashTable[h] < 0x1_0000
      {
        var last := Max(Max(j.start, 1), |j.v| - MFLIMIT + 1 + j.Delta());
        assert j.EntryOk(j.Candidate(hashTable[..][h], h), h, hashTable.Length, last);
      }
    }
  }

  /** `LZ4_memmove`: the regions may overlap. */
  method Memmove(mem: array<byte>, to: nat, from: nat, n: nat)
    requires to + n <= mem.Length && from + n <= mem.Length
    modifies mem
    ensures mem[..][to..to + n] == old(mem[..])[from..from + n]
    ensures forall i :: 0 <= i < mem.Length && !(to <= i < to + n) ==> mem[i] == old(mem[i])
  {
    forall k | 0 <= k < n { mem[to + k] := mem[from + k]; }
  }

  /** The block of a single zero token stands for nothing. */
  lemma EmptyBlock(history: Bytes)
    ensures Encodes([0], history, [])
  {
    var b: Bytes := [0];
    assert b[1..] == [];
    assert Parse(b, 0) == Some(Block([], []));
    var d := Decode(history, b).value;
    assert history + d == history + [];
    assert d == (history + d)[|history|..];
  }
}
