/**
  Whole runs: compressor and decoder of single blocks, and of streams whose blocks may continue the previous one, lie
  elsewhere, or overwrite the front of what came before, with the dictionary moved between them.
*/
module Streaming {
  import opened Wrappers
  import opened Lz4Format
  import opened FastStream
  import opened StreamRuns
  import opened DecoderApi
  import HcStream
  import BlockCompressor
  import IndexRescaling
  import BlockDecoder

  // ---------------------------------------------------------------- one block

  /** A block on its own: whatever the acceleration, the hash and the budget, what comes out is decoded to exactly the
      input by a decoder with just the room for it; with `LZ4_compressBound` bytes something does come out. */
  method BlockRoundTrip(src: Bytes, maxOutputSize: nat, acceleration: int, hash: Bytes -> nat)
    returns (packed: Bytes, output: Bytes)
    ensures |packed| <= maxOutputSize
    ensures |src| <= MAX_INPUT_SIZE && maxOutputSize >= BlockCompressor.CompressBound(|src|) ==> |packed| > 0
    ensures |packed| > 0 ==> output == src
  {
    hide Encodes;
    var stream := new Stream(4096);
    var dst := new byte[maxOutputSize];
    var n := stream.CompressFast(src, dst, maxOutputSize, acceleration, hash);
    packed, output := dst[..n], [];
    if n > 0 {
      var buf := new byte[|src|];
      assert [] + buf[0..0] == [];
      var r := DecompressValid(packed, buf, 0, |src|, BlockDecoder.NoDict, 0, [], src);
      output := buf[..];
      assert buf[..] == buf[0..0 + r];
    }
  }

  /** A block after a dictionary that is loaded into a stream of its own and attached to a working stream of any past:
      what comes out is decoded to exactly the input by a decoder that is given the dictionary. */
  method AttachedRoundTrip(working: Stream, mem: array<byte>, dictStart: nat, size: nat, source: nat, inputSize: nat,
                           capacity: nat, acceleration: int, hash: Bytes -> nat)
    returns (packed: Bytes, output: Bytes)
    requires working.Valid() && (working.tableKind == FastStream.Cleared ==> working.currentOffset <= KB64)
    requires working.hashTable.Length == 4096 && inputSize <= 0x7FFF_FFFF
    requires dictStart + size <= mem.Length && source + inputSize <= mem.Length
    modifies working, working.hashTable
    ensures |packed| <= capacity
    ensures inputSize <= MAX_INPUT_SIZE && capacity >= BlockCompressor.CompressBound(inputSize) ==> |packed| > 0
    ensures |packed| > 0 ==> output == mem[source..source + inputSize]
  {
    hide Encodes, Stream.Attached;
    ResetAndAttach(working, mem, dictStart, size, hash);
    packed := CompressAttached(working, mem, mem[..][dictStart..dictStart + size], source, inputSize, capacity,
                               acceleration, hash);
    output := [];
    if |packed| > 0 {
      ghost var block := mem[source..source + inputSize];
      var buf := new byte[inputSize + 1];
      var dict := mem[dictStart..dictStart + size];
      assert dict == mem[..][dictStart..dictStart + size];
      var r := DecompressUsingDict(packed, buf, 0, inputSize + 1, false, size, dict, block);
      output := buf[..r];
    }
  }

  /** `LZ4_loadDict`, `LZ4_resetStream_fast`, `LZ4_attach_dictionary`. */
  method ResetAndAttach(working: Stream, mem: array<byte>, dictStart: nat, size: nat, hash: Bytes -> nat)
    requires working.Valid() && (working.tableKind == FastStream.Cleared ==> working.currentOffset <= KB64)
    requires working.hashTable.Length == 4096 && dictStart + size <= mem.Length
    modifies working, working.hashTable
    ensures working.Valid() && working.Uses32() && working.dictSize == 0 && working.dictionary == 0
    ensures working.dictCtx == None || working.Attached(mem[..], mem[..][dictStart..dictStart + size])
  {
    hide Stream.Attached, Stream.DictHolds;
    var dictionary := new Stream(4096);
    var loaded := dictionary.LoadDict(mem, dictStart, size, hash);
    working.PrepareTable(0, BlockCompressor.ByU32);
    working.AttachDictionary(dictionary);
    if working.dictCtx != None { working.AttachedNow(dictionary, mem[..], mem[..][dictStart..dictStart + size]); }
  }

  /** The first block of a stream to which a dictionary is attached, if it was not too short. */
  method CompressAttached(working: Stream, mem: array<byte>, ghost dict: Bytes, source: nat, inputSize: nat,
                          capacity: nat, acceleration: int, hash: Bytes -> nat)
    returns (packed: Bytes)
    requires working.Valid() && working.Uses32() && working.dictSize == 0 && working.dictionary == 0
    requires working.dictCtx == None || working.Attached(mem[..], dict)
    requires inputSize <= 0x7FFF_FFFF && source + inputSize <= mem.Length
    modifies working, working.hashTable
    ensures |packed| <= capacity
    ensures inputSize <= MAX_INPUT_SIZE && capacity >= BlockCompressor.CompressBound(inputSize) ==> |packed| > 0
    ensures |packed| > 0 ==> Encodes(packed, dict, mem[source..source + inputSize])
  {
    hide Encodes, Stream.Attached, Stream.AsIfCopied, PlannedWithoutRenorm;
    var dst := new byte[capacity];
    var n := 0;
    ghost var used, prefix;
    if working.dictCtx == None {
      n, used, prefix := working.CompressFastContinue(mem, source, inputSize, dst, capacity, acceleration, hash, []);
      EncodesWindow(dst[..n], dict, [], mem[source..source + inputSize]);
      assert dict + [] == dict;
    } else {
      n := working.CompressFastContinueAttached(mem, source, inputSize, dst, capacity, acceleration, hash, [], dict);
    }
    packed := dst[..n];
  }

  // ---------------------------------------------------------------- streams

  /** Decoding block by block, each after everything decoded before it. */
  function DecodeStream(history: Bytes, packed: seq<Bytes>): Option<Bytes>
    decreases |packed|
  {
    if |packed| == 0 then Some(history)
    else match Decode(history, packed[0])
      case None => None
      case Some(content) => DecodeStream(history + content, packed[1..])
  }

  /** `packed[i]` stands for `blocks[i]` after the dictionary and all earlier blocks. */
  ghost predicate EncodesStream(dict: Bytes, blocks: seq<Bytes>, packed: seq<Bytes>) {
    |packed| == |blocks| && forall i :: 0 <= i < |blocks| ==> Encodes(packed[i], dict + Concat(blocks[..i]), blocks[i])
  }

  lemma ConcatNext(blocks: seq<Bytes>, n: nat)
    requires n < |blocks|
    ensures Concat(blocks[..n + 1]) == Concat(blocks[..n]) + blocks[n]
  {
    assert blocks[..n + 1][..n] == blocks[..n];
  }

  /** Streaming round trip: what is ensured of each block restores the whole stream. */
  lemma {:induction false} StreamRoundTrip(dict: Bytes, blocks: seq<Bytes>, packed: seq<Bytes>, n: nat)
    requires EncodesStream(dict, blocks, packed) && n <= |blocks|
    ensures DecodeStream(dict + Concat(blocks[..n]), packed[n..]) == Some(dict + Concat(blocks))
    decreases |blocks| - n
  {
    hide Decode, Concat;
    if n == |blocks| {
      assert blocks[..n] == blocks;
    } else {
      var h := dict + Concat(blocks[..n]);
      assert Encodes(packed[n], h, blocks[n]);
      ConcatNext(blocks, n);
      assert h + blocks[n] == dict + Concat(blocks[..n + 1]);
      assert packed[n..][1..] == packed[n + 1..];
      hide Encodes, EncodesStream;
      StreamRoundTrip(dict, blocks, packed, n + 1);
    }
  }

  /** One more block. */
  lemma StreamGrows(dict: Bytes, blocks: seq<Bytes>, packed: seq<Bytes>, block: Bytes, b: Bytes)
    requires EncodesStream(dict, blocks, packed) && Encodes(b, dict + Concat(blocks), block)
    ensures EncodesStream(dict, blocks + [block], packed + [b])
    ensures Concat(blocks + [block]) == Concat(blocks) + block
  {
    hide Encodes, Concat;
    var more := blocks + [block];
    forall i | 0 <= i < |more|
      ensures Encodes((packed + [b])[i], dict + Concat(more[..i]), more[i])
    {
      if i < |blocks| { assert more[..i] == blocks[..i]; } else { assert more[..i] == blocks; }
    }
    ConcatNext(more, |blocks|);
    assert more[..|blocks|] == blocks && more[..|more|] == more;
  }

  /** Memory holds `bytes` at one place and is otherwise unchanged. */
  ghost predicate Placed(before: Bytes, after: Bytes, at: nat, bytes: Bytes) {
    && |before| == |after| && at + |bytes| <= |after| && after[at..at + |bytes|] == bytes
    && forall i :: 0 <= i < |before| && !(at <= i < at + |bytes|) ==> after[i] == before[i]
  }

  /** Where the compressor's dictionary may be after a block. */
  ghost predicate DictMoved(at: nat, n: nat, source: nat, size: nat, at': nat, n': nat) {
    n' > 0 ==>
      if size == 0 then at' + n' == at + n && at' >= at
      else at' + n' == source + size && (at' == source || (at + n == source && at' >= at))
  }

  /** Where the decoder's prefix is after a block. */
  ghost predicate PrefixMoved(end: nat, n: nat, dest: nat, size: nat, end': nat, n': nat) {
    if size == 0 then end' == end && n' == n
    else end' == dest + size && n' == if dest == end && n > 0 then n + size else size
  }

  /** The caller fills in a block. */
  method Put(mem: array<byte>, at: nat, bytes: Bytes)
    requires at + |bytes| <= mem.Length
    modifies mem
    ensures Placed(old(mem[..]), mem[..], at, bytes)
  {
    forall k | 0 <= k < |bytes| { mem[at + k] := bytes[k]; }
  }

  /** The block is in place, and the dictionary is where the compressor expects it. */
  lemma Owed(stream: Stream, before: Bytes, after: Bytes, history: Bytes, op: Op)
    requires op.Block? && Permitted(op, |before|, stream.dictionary, stream.dictSize)
    requires stream.DictHolds(before, history) && Placed(before, after, op.source, op.bytes)
    ensures stream.DictAvailable(after, history, op.source, |op.bytes|)
  {
    var d, k := stream.dictionary, stream.dictSize;
    forall a | d <= a < d + k && !(op.source <= a < op.source + |op.bytes|)
      ensures after[a] == history[a - (d + k) + |history|]
    {
      assert before[d..d + k][a - d] == history[|history| - k..][a - d];
    }
  }

  /** A block of the stream; `packed` is empty if it did not fit its budget. */
  method CompressOne(stream: Stream, mem: array<byte>, op: Op, hash: Bytes -> nat, ghost history: Bytes)
    returns (packed: Bytes, ghost used: nat)
    requires stream.Valid() && stream.StreamMode() && stream.DictHolds(mem[..], history)
    requires op.Block? && Permitted(op, mem.Length, stream.dictionary, stream.dictSize)
    modifies stream, stream.hashTable, mem
    ensures stream.Valid() && stream.StreamMode()
    ensures Placed(old(mem[..]), mem[..], op.source, op.bytes)
    ensures |op.bytes| > 0 || |packed| > 0 ==> stream.DictHolds(mem[..], history + op.bytes)
    ensures used <= |history| && used <= old(stream.dictSize) && |packed| <= op.capacity
    ensures |packed| > 0 ==>
      Encodes(packed, history, op.bytes) && Encodes(packed, history[|history| - used..], op.bytes)
    ensures |packed| == 0 ==> op.capacity < BlockCompressor.CompressBound(|op.bytes|)
    ensures |packed| > 0 && |op.bytes| == 0 ==> packed == [0]
    ensures used > 0 && |op.bytes| > 0 ==>
      var dictEnd := old(stream.dictionary + stream.dictSize);
      op.source >= dictEnd || op.source + |op.bytes| <= dictEnd - used
    ensures DictMoved(old(stream.dictionary), old(stream.dictSize), op.source, |op.bytes|, stream.dictionary,
                      stream.dictSize)
    ensures stream.Now() == old(stream.Now()).After(op.source, |op.bytes|)
    ensures if |op.bytes| == 0 then stream.hashTable[..] == old(stream.hashTable[..])
      else CarriedOut(old(stream.Now()), old(stream.hashTable[..]), op.source, history, op.bytes, hash, op.capacity,
                      Accel(op.acceleration), packed, stream.hashTable[..])
  {
    hide CarriedOut, Where.After, Encodes, Stream.Valid, Stream.DictHolds, Stream.DictAvailable, PlannedWithoutRenorm,
         Placed;
    ghost var before := mem[..];
    Put(mem, op.source, op.bytes);
    Owed(stream, before, mem[..], history, op);
    HistoryLength(stream, before, history);
    var dst := new byte[op.capacity];
    ghost var all := mem[..];
    PlacedThere(before, all, op.source, op.bytes);
    assert mem[op.source..op.source + |op.bytes|] == op.bytes;
    var n;
    ghost var prefix;
    n, used, prefix := stream.CompressFastContinue(mem, op.source, |op.bytes|, dst, op.capacity, op.acceleration, hash,
                                                   history);
    packed := dst[..n];
    assert mem[..] == all;
  }

  lemma PlacedThere(before: Bytes, after: Bytes, at: nat, bytes: Bytes)
    requires Placed(before, after, at, bytes)
    ensures at + |bytes| <= |after| && after[at..at + |bytes|] == bytes
  {
  }

  lemma HistoryLength(stream: Stream, mem: Bytes, history: Bytes)
    requires stream.DictHolds(mem, history)
    ensures stream.dictSize <= |history|
  {
  }

  /** The compressor after some steps of a run; the steps so far are in step with an encoder with unbounded indexes. */
  ghost predicate Running(stream: Stream, mem: Bytes, ops: seq<Op>, done: nat, packed: seq<Bytes>, blocks: seq<Bytes>,
                          older: Bytes, delta: nat, hash: Bytes -> nat)
    requires done <= |ops|
    reads stream, stream.hashTable
  {
    && stream.Valid() && stream.StreamMode() && stream.DictHolds(mem, Concat(blocks))
    && stream.Now() == PlaceAfter(ops[..done])
    && Packed(ops, done, packed, blocks, hash)
    && Tracked(ops, done, stream.hashTable[..], Concat(blocks), older, delta, hash)
  }

  /** What has been written in some steps of a run. */
  ghost predicate Packed(ops: seq<Op>, done: nat, packed: seq<Bytes>, blocks: seq<Bytes>, hash: Bytes -> nat)
    requires done <= |ops|
  {
    EncodesStream([], blocks, packed) && blocks == BlocksOf(ops[..done]) && AsUnbounded(ops, done, packed, hash)
  }

  /**
    Any run of the compressor on a fresh state, as far as the caller keeps the rules and the budgets suffice: every
    block is written so that it decodes after all blocks before it, wherever in memory they were and however the
    dictionary was saved in between; and every block is the one that an encoder would write whose indexes grow without
    bound.
  */
  method CompressRun(mem: array<byte>, ops: seq<Op>, hash: Bytes -> nat)
    returns (done: nat, packed: seq<Bytes>, ghost blocks: seq<Bytes>)
    modifies mem
    ensures RunsTo(ops, done, mem.Length) && EncodesStream([], blocks, packed)
    ensures blocks == BlocksOf(ops[..done]) && AsUnbounded(ops, done, packed, hash)
    ensures DecodeStream([], packed) == Some(Concat(blocks))
  {
    hide Encodes, EncodesStream, Permitted, PlaceAfter, Enough, Running, AsUnbounded;
    var stream := new Stream(4096);
    done, packed, blocks := 0, [], [];
    ghost var older, delta := [], 0;
    Starts(stream, mem[..], ops, hash);
    var stop := false;
    while done < |ops| && !stop
      invariant done <= |ops| && fresh(stream) && fresh(stream.hashTable)
      invariant Packed(ops, done, packed, blocks, hash)
      invariant !stop ==> Running(stream, mem[..], ops, done, packed, blocks, older, delta, hash)
      invariant forall i :: 0 <= i < done ==> Allowed(ops, i, mem.Length)
      invariant stop ==> done < |ops| && (!Allowed(ops, done, mem.Length) || !Enough(ops[done]))
      decreases |ops| - done, !stop
    {
      var op := ops[done];
      Now(stream, mem[..], ops, done, packed, blocks, older, delta, hash);
      if !Permitted(op, mem.Length, stream.dictionary, stream.dictSize) {
        stop := true;
      } else if op.Save? {
        older := SaveStep(stream, mem, op, ops, done, packed, blocks, older, delta, hash);
        done := done + 1;
      } else {
        var b;
        b, older, delta := BlockStep(stream, mem, op, ops, done, packed, blocks, older, delta, hash);
        if |b| == 0 {
          stop := true;
        } else {
          packed, blocks, done := packed + [b], blocks + [op.bytes], done + 1;
        }
      }
      if !stop { Now(stream, mem[..], ops, done, packed, blocks, older, delta, hash); }
    }
    Restored(blocks, packed);
  }

  lemma Now(stream: Stream, mem: Bytes, ops: seq<Op>, done: nat, packed: seq<Bytes>, blocks: seq<Bytes>, older: Bytes,
            delta: nat, hash: Bytes -> nat)
    requires done <= |ops| && Running(stream, mem, ops, done, packed, blocks, older, delta, hash)
    ensures stream.Now() == PlaceAfter(ops[..done]) && Packed(ops, done, packed, blocks, hash)
  {
  }

  lemma Starts(stream: Stream, mem: Bytes, ops: seq<Op>, hash: Bytes -> nat)
    requires stream.Valid() && stream.StreamMode() && stream.Now() == Where(0, 0, 0)
    requires stream.tableKind == FastStream.Cleared
    requires stream.hashTable.Length == 4096
    ensures Running(stream, mem, ops, 0, [], [], [], 0, hash) && Packed(ops, 0, [], [], hash)
  {
    PlaceFirst(ops);
    assert stream.hashTable[..] == NewEncoder().table;
    TrackedFirst(ops, stream.hashTable[..], [], hash);
    Fresh(stream, mem);
  }

  /** A saved dictionary. */
  method SaveStep(stream: Stream, mem: array<byte>, op: Op, ghost ops: seq<Op>, ghost done: nat,
                  ghost packed: seq<Bytes>, ghost blocks: seq<Bytes>, ghost older: Bytes, ghost delta: nat,
                  ghost hash: Bytes -> nat)
    returns (ghost older': Bytes)
    requires done < |ops| && op == ops[done] && op.Save?
    requires Permitted(op, mem.Length, stream.dictionary, stream.dictSize)
    requires Running(stream, mem[..], ops, done, packed, blocks, older, delta, hash)
    modifies stream`dictionary, stream`dictSize, mem
    ensures Running(stream, mem[..], ops, done + 1, packed, blocks, older', delta, hash)
  {
    hide EncodesStream, Concat, Permitted, PlaceAfter, AsUnbounded, Tracked, Stream.DictHolds, BlocksOf;
    Savable(op, mem.Length, stream.dictionary, stream.dictSize);
    OffsetKnown(stream);
    BlocksNext(ops, done);
    assert BlocksOf(ops[..done]) + [] == BlocksOf(ops[..done]);
    PlaceNext(ops, done);
    older' := TrackedKeep(ops, done, stream.hashTable[..], Concat(blocks), older, delta, hash);
    PlansKeptSave(ops, done, packed, hash);
    var saved := stream.SaveDict(mem, op.safeBuffer, op.size, Concat(blocks));
  }

  lemma OffsetKnown(stream: Stream)
    requires stream.Valid()
    ensures stream.dictSize <= stream.currentOffset <= IndexRescaling.MAX_OFFSET && stream.hashTable.Length > 0
  {
  }

  /** A block, which may not fit its budget. */
  method BlockStep(stream: Stream, mem: array<byte>, op: Op, ghost ops: seq<Op>, ghost done: nat,
                   ghost packed: seq<Bytes>, ghost blocks: seq<Bytes>, ghost older: Bytes, ghost delta: nat,
                   hash: Bytes -> nat)
    returns (b: Bytes, ghost older': Bytes, ghost delta': nat)
    requires done < |ops| && op == ops[done] && op.Block?
    requires Permitted(op, mem.Length, stream.dictionary, stream.dictSize)
    requires Running(stream, mem[..], ops, done, packed, blocks, older, delta, hash)
    modifies stream, stream.hashTable, mem
    ensures |b| == 0 ==> !Enough(op)
    ensures |b| > 0 ==>
      Running(stream, mem[..], ops, done + 1, packed + [b], blocks + [op.bytes], older', delta', hash)
  {
    hide Encodes, EncodesStream, Concat, PlaceAfter, AsUnbounded, Tracked, Stream.DictHolds, BlocksOf, Stream.Valid,
         CarriedOut, DictMoved, Where.After, Placed;
    ghost var table, history := stream.hashTable[..], Concat(blocks);
    OffsetKnown(stream);
    BlocksNext(ops, done);
    PlaceNext(ops, done);
    SameLength(blocks, packed);
    ghost var used;
    b, used := CompressOne(stream, mem, op, hash, history);
    older', delta' := older, delta;
    if |b| == 0 {
      NotEnough(op);
    } else {
      assert [] + history == history;
      StreamGrows([], blocks, packed, op.bytes, b);
      if |op.bytes| == 0 {
        older' := TrackedKeep(ops, done, table, history, older, delta, hash);
        PlansKept(ops, done, packed, b, hash);
        assert history + op.bytes == history;
      } else {
        older', delta' := TrackedBlock(ops, done, table, history, older, delta, hash, packed, b, stream.hashTable[..]);
      }
    }
  }

  lemma SameLength(blocks: seq<Bytes>, packed: seq<Bytes>)
    requires EncodesStream([], blocks, packed)
    ensures |packed| == |blocks|
  {
  }

  lemma Restored(blocks: seq<Bytes>, packed: seq<Bytes>)
    requires EncodesStream([], blocks, packed)
    ensures DecodeStream([], packed) == Some(Concat(blocks))
  {
    hide EncodesStream, DecodeStream;
    StreamRoundTrip([], blocks, packed, 0);
    assert blocks[..0] == [] && packed[0..] == packed && [] + Concat([]) == [] && [] + Concat(blocks) == Concat(blocks);
  }

  lemma Fresh(stream: Stream, mem: Bytes)
    requires stream.dictSize == 0 && stream.dictionary == 0
    ensures EncodesStream([], [], []) && stream.DictHolds(mem, Concat([]))
  {
    assert mem[0..0] == [];
  }

  lemma Savable(op: Op, size: nat, dictionary: nat, dictSize: nat)
    requires op.Save? && Permitted(op, size, dictionary, dictSize)
    ensures op.safeBuffer + Min(dictSize, KB64) <= size
  {
  }

  /** All of `history` has been decoded to the front of `out`. */
  ghost predicate Decoded(decoder: StreamDecode, out: array<byte>, history: Bytes)
    reads decoder, out
  {
    && decoder.Valid(out.Length) && |history| == decoder.prefixEnd == decoder.prefixSize && decoder.extDictSize == 0
    && out[..|history|] == history && Covers(decoder.Available(out[..], |history|), history)
  }

  /** One more block, with all the room that is left. */
  method DecodeNext(decoder: StreamDecode, b: Bytes, out: array<byte>, total0: nat, ghost history: Bytes,
                    ghost block: Bytes)
    returns (total: nat)
    requires Decoded(decoder, out, history) && total0 == |history| && total0 + |block| < out.Length
    requires Encodes(b, history, block)
    modifies decoder, out
    ensures total == |history + block| && Decoded(decoder, out, history + block)
  {
    hide Encodes, Covers, StreamDecode.Apart, StreamDecode.Available, StreamDecode.Handed, StreamDecode.HandedExt,
         DecodedAs;
    ApartWithoutDict(decoder, total0, out.Length - total0, |history|);
    ghost var before := out[..];
    var r := decoder.DecompressSafeContinue(b, out, total0, out.Length - total0, history, block);
    FrontKept(before, out[..], total0, r, history, block);
    total := total0 + r;
  }

  /** Blocks decoded one after the other into `out`. */
  method DecodeRun(packed: seq<Bytes>, out: array<byte>, ghost blocks: seq<Bytes>) returns (total: nat)
    requires EncodesStream([], blocks, packed) && |Concat(blocks)| < out.Length
    modifies out
    ensures total == |Concat(blocks)| && out[..total] == Concat(blocks)
  {
    hide Encodes, EncodesStream, Concat, Decoded;
    var decoder := new StreamDecode(0, 0);
    total := 0;
    var i := 0;
    NothingDecoded(decoder, out);
    StreamLength(blocks, packed);
    while i < |packed|
      invariant i <= |packed| && fresh(decoder)
      invariant total == |Concat(blocks[..i])| && Decoded(decoder, out, Concat(blocks[..i]))
    {
      StreamAt(blocks, packed, i);
      total := DecodeNext(decoder, packed[i], out, total, Concat(blocks[..i]), blocks[i]);
      i := i + 1;
    }
    assert blocks[..i] == blocks;
    OutputDecoded(decoder, out, Concat(blocks));
  }

  lemma OutputDecoded(decoder: StreamDecode, out: array<byte>, history: Bytes)
    requires Decoded(decoder, out, history)
    ensures |history| <= out.Length && out[..|history|] == history
  {
  }

  lemma StreamLength(blocks: seq<Bytes>, packed: seq<Bytes>)
    requires EncodesStream([], blocks, packed)
    ensures |blocks| == |packed| && blocks[..0] == [] && Concat(blocks[..0]) == []
  {
  }

  lemma {:induction false} ConcatLength(blocks: seq<Bytes>, n: nat)
    requires n <= |blocks|
    ensures |Concat(blocks[..n])| <= |Concat(blocks)|
    decreases |blocks| - n
  {
    if n < |blocks| {
      ConcatNext(blocks, n);
      ConcatLength(blocks, n + 1);
    } else {
      assert blocks[..n] == blocks;
    }
  }

  lemma StreamAt(blocks: seq<Bytes>, packed: seq<Bytes>, i: nat)
    requires EncodesStream([], blocks, packed) && i < |blocks|
    ensures Encodes(packed[i], Concat(blocks[..i]), blocks[i])
    ensures Concat(blocks[..i + 1]) == Concat(blocks[..i]) + blocks[i]
    ensures |Concat(blocks[..i])| + |blocks[i]| <= |Concat(blocks)|
  {
    hide Encodes;
    assert [] + Concat(blocks[..i]) == Concat(blocks[..i]);
    ConcatNext(blocks, i);
    ConcatLength(blocks, i + 1);
  }

  lemma NothingDecoded(decoder: StreamDecode, out: array<byte>)
    requires decoder.prefixEnd == decoder.prefixSize == 0 && decoder.extDictSize == 0 && decoder.externalDict == 0
    ensures Decoded(decoder, out, [])
  {
  }

  lemma ApartWithoutDict(decoder: StreamDecode, dest: nat, size: nat, needed: nat)
    requires dest == decoder.prefixEnd && decoder.extDictSize == 0
    ensures decoder.Apart(dest, size, needed)
  {
  }

  lemma FrontKept(before: Bytes, after: Bytes, total: nat, r: nat, history: Bytes, block: Bytes)
    requires |before| == |after| && total + r <= |before| && forall i :: 0 <= i < total ==> after[i] == before[i]
    requires before[..total] == history && after[total..total + r] == block
    ensures after[..total + r] == history + block
  {
    assert after[..total] == before[..total];
    assert after[..total + r] == after[..total] + after[total..total + r];
  }

  /**
    A run of the compressor, decoded by the stream decoder into one growing output: what comes out is all that went in.
  */
  method StreamAndBack(mem: array<byte>, ops: seq<Op>, hash: Bytes -> nat, out: array<byte>)
    returns (done: nat, total: nat)
    requires mem != out && |Concat(BlocksOf(ops))| < out.Length
    modifies mem, out
    ensures RunsTo(ops, done, mem.Length) && total <= out.Length && out[..total] == Concat(BlocksOf(ops[..done]))
  {
    hide EncodesStream, Concat, Allowed, Enough, BlocksOf;
    var packed;
    ghost var blocks;
    done, packed, blocks := CompressRun(mem, ops, hash);
    FewerBlocks(ops, done);
    total := DecodeRun(packed, out, blocks);
  }

  lemma {:induction false} FewerBlocks(ops: seq<Op>, n: nat)
    requires n <= |ops|
    ensures |Concat(BlocksOf(ops[..n]))| <= |Concat(BlocksOf(ops))|
    decreases |ops| - n
  {
    if n < |ops| {
      BlocksNext(ops, n);
      FewerBlocks(ops, n + 1);
      var bs := BlocksOf(ops[..n]);
      if ops[n].Block? {
        assert (bs + [ops[n].bytes])[..|bs|] == bs;
      } else {
        assert bs + [] == bs;
      }
    } else {
      assert ops[..n] == ops;
    }
  }

  // ---------------------------------------------------------------- buffers in step

  /** The compressor's dictionary, which ends the history, is at the end of the decoder's prefix, at the same place. */
  ghost predicate SamePlace(dictionary: nat, dictSize: nat, prefixEnd: nat, prefixSize: nat, mem: Bytes, out: Bytes,
                            history: Bytes) {
    && |mem| == |out| && prefixSize <= prefixEnd <= |out| && dictionary + dictSize <= |mem| && dictSize <= |history|
    && mem[dictionary..dictionary + dictSize] == history[|history| - dictSize..]
    && (dictSize > 0 ==> dictionary + dictSize == prefixEnd && dictionary >= prefixEnd - prefixSize)
    && forall a :: dictionary <= a < dictionary + dictSize ==> out[a] == mem[a]
  }

  ghost predicate InStep(stream: Stream, decoder: StreamDecode, mem: Bytes, out: Bytes, history: Bytes)
    reads stream, stream.hashTable, decoder
  {
    && stream.Valid() && stream.StreamMode() && |mem| == |out| && decoder.Valid(|out|)
    && SamePlace(stream.dictionary, stream.dictSize, decoder.prefixEnd, decoder.prefixSize, mem, out, history)
  }

  /** The dictionary bytes that a block uses are at hand for the decoder. */
  lemma AtHand(dictionary: nat, dictSize: nat, decoder: StreamDecode, mem: Bytes, out: Bytes, history: Bytes, used: nat,
               dest: nat, size: nat)
    requires decoder.Valid(|out|) && used <= dictSize
    requires SamePlace(dictionary, dictSize, decoder.prefixEnd, decoder.prefixSize, mem, out, history)
    requires used > 0 && size > 0 ==> dest >= dictionary + dictSize || dest + size <= dictionary + dictSize - used
    ensures used <= |history| && Covers(decoder.Available(out, dest), history[|history| - used..])
    ensures decoder.Apart(dest, size, used)
  {
    var need := history[|history| - used..];
    if used == 0 {
      NothingNeeded(decoder.Available(out, dest));
    } else {
      SameSlice(mem, out, dictionary, dictionary + dictSize);
      TailOfPrefix(out, dictionary, dictSize, decoder.prefixEnd - decoder.prefixSize, history, used);
      CoversNeed(decoder.Prefix(out), need);
      hide Covers;
      if dest == decoder.prefixEnd { CoversLonger(decoder.External(out), decoder.Prefix(out), need); }
    }
  }

  lemma NothingNeeded(given: Bytes)
    ensures Covers(given, [])
  {
  }

  lemma CoversNeed(given: Bytes, need: Bytes)
    requires |need| <= |given| && given[|given| - |need|..] == need
    ensures Covers(given, need)
  {
    var n := Min(|need|, DISTANCE_MAX);
    SubTail(given, n, |need|);
  }

  lemma TailOfPrefix(out: Bytes, dictionary: nat, dictSize: nat, start: nat, history: Bytes, used: nat)
    requires start <= dictionary && dictionary + dictSize <= |out| && used <= dictSize <= |history|
    requires out[dictionary..dictionary + dictSize] == history[|history| - dictSize..]
    ensures var prefix := out[start..dictionary + dictSize]; prefix[|prefix| - used..] == history[|history| - used..]
  {
    var end := dictionary + dictSize;
    SubSlice(out, start, end - used, end);
    SubSlice(out, dictionary, end - used, end);
    SubTail(history, used, dictSize);
  }

  lemma SameSlice(mem: Bytes, out: Bytes, i: nat, j: nat)
    requires i <= j <= |mem| == |out| && forall a :: i <= a < j ==> out[a] == mem[a]
    ensures out[i..j] == mem[i..j]
  {
  }

  /** A block is decoded to the place where the compressor had it. */
  method DecodeInPlace(decoder: StreamDecode, packed: Bytes, out: array<byte>, dest: nat, size: nat, ghost mem: Bytes,
                       ghost at: nat, ghost n: nat, ghost history: Bytes, ghost used: nat, ghost bytes: Bytes)
    returns (content: Bytes)
    requires decoder.Valid(out.Length) && SamePlace(at, n, decoder.prefixEnd, decoder.prefixSize, mem, out[..], history)
    requires used <= n && size == |bytes| && dest + size <= out.Length
    requires used > 0 && size > 0 ==> dest >= at + n || dest + size <= at + n - used
    requires used <= |history| && Encodes(packed, history[|history| - used..], bytes) && (size > 0 || packed == [0])
    modifies decoder, out
    ensures content == bytes && Placed(old(out[..]), out[..], dest, bytes) && decoder.Valid(out.Length)
    ensures PrefixMoved(old(decoder.prefixEnd), old(decoder.prefixSize), dest, |bytes|, decoder.prefixEnd,
                        decoder.prefixSize)
  {
    hide Encodes, Covers, StreamDecode.Available, StreamDecode.Apart, SamePlace, StreamDecode.Handed,
         StreamDecode.HandedExt, DecodedAs;
    AtHand(at, n, decoder, mem, out[..], history, used, dest, size);
    var r := decoder.DecompressSafeContinue(packed, out, dest, size, history[|history| - used..], bytes);
    content := out[dest..dest + r];
    ghost var after := out[..];
    assert after[dest..dest + r] == out[dest..dest + r];
  }

  /** One block through both ends: the decoder puts it where the compressor had it. */
  method BlockInStep(stream: Stream, decoder: StreamDecode, mem: array<byte>, out: array<byte>, op: Op,
                     hash: Bytes -> nat, ghost history: Bytes)
    returns (ok: bool, content: Bytes)
    requires mem != out && InStep(stream, decoder, mem[..], out[..], history)
    requires op.Block? && Permitted(op, mem.Length, stream.dictionary, stream.dictSize)
    modifies stream, stream.hashTable, decoder, mem, out
    ensures ok ==> content == op.bytes && InStep(stream, decoder, mem[..], out[..], history + op.bytes)
    ensures !ok ==> op.capacity < BlockCompressor.CompressBound(|op.bytes|)
    ensures stream.Now() == old(stream.Now()).After(op.source, |op.bytes|)
  {
    hide Encodes, Stream.Valid, Stream.DictHolds, Covers, SamePlace, Placed, DictMoved, PrefixMoved, Permitted,
         Where.After, InStep;
    InStepParts(stream, decoder, mem[..], out[..], history);
    InStepHolds(stream, mem[..], decoder.prefixEnd, decoder.prefixSize, out[..], history);
    PermittedFits(op, mem.Length, stream.dictionary, stream.dictSize);
    ghost var mem0, out0 := mem[..], out[..];
    ghost var at, n, prefixEnd, prefixSize := stream.dictionary, stream.dictSize, decoder.prefixEnd, decoder.prefixSize;
    var packed;
    ghost var used;
    packed, used := CompressOne(stream, mem, op, hash, history);
    if |packed| == 0 { return false, []; }
    ok := true;
    assert out[..] == out0;
    content := DecodeInPlace(decoder, packed, out, op.source, |op.bytes|, mem0, at, n, history, used, op.bytes);
    InStepAgain(stream, decoder, mem0, out0, mem[..], out[..], at, n, prefixEnd, prefixSize, op.source, op.bytes,
                history);
  }

  lemma InStepParts(stream: Stream, decoder: StreamDecode, mem: Bytes, out: Bytes, history: Bytes)
    requires InStep(stream, decoder, mem, out, history)
    ensures stream.Valid() && stream.StreamMode() && |mem| == |out| && decoder.Valid(|out|)
    ensures SamePlace(stream.dictionary, stream.dictSize, decoder.prefixEnd, decoder.prefixSize, mem, out, history)
  {
  }

  lemma InStepAgain(stream: Stream, decoder: StreamDecode, mem0: Bytes, out0: Bytes, mem: Bytes, out: Bytes, at: nat,
                    n: nat, prefixEnd: nat, prefixSize: nat, source: nat, bytes: Bytes, history: Bytes)
    requires stream.Valid() && stream.StreamMode() && |mem| == |out| && decoder.Valid(|out|)
    requires SamePlace(at, n, prefixEnd, prefixSize, mem0, out0, history)
    requires Placed(mem0, mem, source, bytes) && Placed(out0, out, source, bytes)
    requires DictMoved(at, n, source, |bytes|, stream.dictionary, stream.dictSize)
    requires PrefixMoved(prefixEnd, prefixSize, source, |bytes|, decoder.prefixEnd, decoder.prefixSize)
    requires stream.DictHolds(mem, history + bytes)
    ensures InStep(stream, decoder, mem, out, history + bytes)
  {
    hide SamePlace, Placed, DictMoved, PrefixMoved, Stream.DictHolds, Stream.Valid;
    StillHolds(stream, mem, history + bytes);
    PlacedThere(mem0, mem, source, bytes);
    SameLengths(mem0, mem, source, bytes);
    Moved(mem0, out0, mem, out, at, n, prefixEnd, prefixSize, source, bytes, history,
          stream.dictionary, stream.dictSize, decoder.prefixEnd, decoder.prefixSize);
  }

  lemma SameLengths(before: Bytes, after: Bytes, at: nat, bytes: Bytes)
    requires Placed(before, after, at, bytes)
    ensures |before| == |after|
  {
  }

  lemma InStepHolds(stream: Stream, mem: Bytes, prefixEnd: nat, prefixSize: nat, out: Bytes, history: Bytes)
    requires SamePlace(stream.dictionary, stream.dictSize, prefixEnd, prefixSize, mem, out, history)
    ensures stream.DictHolds(mem, history)
  {
  }

  lemma PermittedFits(op: Op, size: nat, dictionary: nat, dictSize: nat)
    requires op.Block? && Permitted(op, size, dictionary, dictSize)
    ensures op.source + |op.bytes| <= size
  {
  }

  lemma StillHolds(stream: Stream, mem: Bytes, history: Bytes)
    requires stream.DictHolds(mem, history)
    ensures stream.dictionary + stream.dictSize <= |mem| && stream.dictSize <= |history|
    ensures mem[stream.dictionary..stream.dictionary + stream.dictSize] == history[|history| - stream.dictSize..]
  {
  }

  /** Dictionary and prefix after a block are again at the same place in both memories. */
  lemma Moved(mem: Bytes, out: Bytes, mem': Bytes, out': Bytes, at: nat, n: nat, prefixEnd: nat, prefixSize: nat,
              source: nat, bytes: Bytes, history: Bytes, at': nat, n': nat, prefixEnd': nat, prefixSize': nat)
    requires SamePlace(at, n, prefixEnd, prefixSize, mem, out, history)
    requires Placed(mem, mem', source, bytes) && Placed(out, out', source, bytes)
    requires DictMoved(at, n, source, |bytes|, at', n')
    requires PrefixMoved(prefixEnd, prefixSize, source, |bytes|, prefixEnd', prefixSize')
    requires at' + n' <= |mem| && n' <= |history + bytes|
    requires mem'[at'..at' + n'] == (history + bytes)[|history + bytes| - n'..]
    ensures SamePlace(at', n', prefixEnd', prefixSize', mem', out', history + bytes)
  {
    forall a | at' <= a < at' + n'
      ensures out'[a] == mem'[a]
    {
      if source <= a < source + |bytes| {
        assert out'[a] == out'[source..source + |bytes|][a - source] == mem'[source..source + |bytes|][a - source]
          == mem'[a];
      }
    }
  }

  /**
    Two buffers of the same size used in step, ring buffers that wrap around included: as long as the caller keeps the
    rules and the budgets suffice, the decoder restores every block at the place where the compressor had it.
  */
  method RunInStep(mem: array<byte>, out: array<byte>, ops: seq<Op>, hash: Bytes -> nat)
    returns (done: nat, contents: seq<Bytes>)
    requires mem != out && mem.Length == out.Length && forall i :: 0 <= i < |ops| ==> ops[i].Block?
    modifies mem, out
    ensures RunsTo(ops, done, mem.Length)
    ensures |contents| == done && forall i :: 0 <= i < done ==> contents[i] == ops[i].bytes
  {
    hide InStep, Permitted, PlaceAfter, Enough;
    var stream := new Stream(4096);
    var decoder := new StreamDecode(0, 0);
    ghost var history := [];
    done, contents := 0, [];
    PlaceFirst(ops);
    StartInStep(stream, decoder, mem[..], out[..]);
    var ok := true;
    while done < |ops| && ok
      invariant done <= |ops| && fresh(stream) && fresh(stream.hashTable) && fresh(decoder)
      invariant |contents| == done && forall i :: 0 <= i < done ==> contents[i] == ops[i].bytes
      invariant ok ==> InStep(stream, decoder, mem[..], out[..], history)
      invariant ok ==> stream.Now() == PlaceAfter(ops[..done])
      invariant forall i :: 0 <= i < done ==> Allowed(ops, i, mem.Length)
      invariant !ok ==> done < |ops| && (!Allowed(ops, done, mem.Length) || !Enough(ops[done]))
      decreases |ops| - done, ok
    {
      var op := ops[done];
      PlaceNext(ops, done);
      if !Permitted(op, mem.Length, stream.dictionary, stream.dictSize) {
        ok := false;
      } else {
        var content;
        ok, content := BlockInStep(stream, decoder, mem, out, op, hash, history);
        if ok {
          contents, done, history := contents + [content], done + 1, history + op.bytes;
        } else {
          NotEnough(op);
        }
      }
    }
  }

  lemma StartInStep(stream: Stream, decoder: StreamDecode, mem: Bytes, out: Bytes)
    requires stream.Valid() && stream.StreamMode() && stream.dictSize == 0 && stream.dictionary == 0
    requires |mem| == |out|
    requires decoder.prefixEnd == decoder.prefixSize == 0 && decoder.extDictSize == 0 && decoder.externalDict == 0
    ensures InStep(stream, decoder, mem, out, [])
  {
  }

  // ---------------------------------------------------------------- streams at high compression

  /** What the caller keeps to: everything lies in memory, and budgets reach the bound. */
  predicate WithinMemory(op: Op, size: nat) {
    match op
    case Block(source, bytes, capacity, acceleration) =>
      source + |bytes| <= size && |bytes| <= MAX_INPUT_SIZE && capacity >= BlockCompressor.CompressBound(|bytes|)
    case Save(safeBuffer, n) => safeBuffer + Max(Min(n, KB64), 0) <= size
  }

  /** A block of the stream, put anywhere, over any part of the window. */
  method CompressOneHc(stream: HcStream.HcStream, mem: array<byte>, op: Op, hash: Bytes -> nat, ghost history: Bytes)
    returns (packed: Bytes)
    requires stream.Valid(mem.Length) && (stream.started ==> stream.Holds(mem[..], history))
    requires op.Block? && WithinMemory(op, mem.Length)
    modifies stream, stream.ctx, stream.ctx.hashTable, stream.ctx.chainTable, mem
    ensures stream.Valid(mem.Length) && stream.started && stream.Holds(mem[..], history + op.bytes)
    ensures |packed| > 0 && Encodes(packed, history, op.bytes)
  {
    hide Encodes, Placed, HcStream.HcStream.Holds, HcStream.HcStream.Available;
    ghost var before := mem[..];
    Put(mem, op.source, op.bytes);
    PlacedThere(before, mem[..], op.source, op.bytes);
    if stream.started { AvailableAfter(stream, before, mem[..], history, op); }
    assert mem[op.source..op.source + |op.bytes|] == op.bytes;
    var dst := new byte[op.capacity];
    var n := stream.CompressContinue(mem, op.source, |op.bytes|, dst, op.capacity, hash, history);
    packed := dst[..n];
  }

  lemma AvailableAfter(stream: HcStream.HcStream, before: Bytes, after: Bytes, history: Bytes, op: Op)
    requires stream.Valid(|before|) && stream.Holds(before, history) && op.Block?
    requires Placed(before, after, op.source, op.bytes)
    ensures stream.Available(after, history, op.source, op.source + |op.bytes|)
  {
    stream.StillAvailable(before, after, history, op.source, op.source + |op.bytes|);
  }

  /** Any run at any level: blocks anywhere in memory, over any part of what came before, and saved dictionaries. The
      stream decoder restores the whole input. */
  method HcStreamAndBack(mem: array<byte>, ops: seq<Op>, level: int, hash: Bytes -> nat, out: array<byte>)
    returns (total: nat)
    requires mem != out && |Concat(BlocksOf(ops))| < out.Length && (|ops| > 0 ==> ops[0].Block?)
    requires forall i :: 0 <= i < |ops| ==> WithinMemory(ops[i], mem.Length)
    modifies mem, out
    ensures total <= out.Length && out[..total] == Concat(BlocksOf(ops))
  {
    hide Encodes, EncodesStream, HcStream.HcStream.Holds, Concat, WithinMemory;
    var stream := new HcStream.HcStream(4096, level);
    var done, packed := 0, [];
    ghost var blocks: seq<Bytes> := [];
    assert EncodesStream([], blocks, packed) by { NoBlocks(); }
    while done < |ops|
      invariant done <= |ops| && fresh(stream) && fresh(stream.ctx) && fresh(stream.ctx.hashTable)
      invariant fresh(stream.ctx.chainTable) && stream.Valid(mem.Length) && (done > 0 ==> stream.started)
      invariant EncodesStream([], blocks, packed) && blocks == BlocksOf(ops[..done])
      invariant stream.started ==> stream.Holds(mem[..], Concat(blocks))
    {
      var op := ops[done];
      BlocksNext(ops, done);
      if op.Save? {
        SaveFits(op, mem.Length);
        var saved := stream.SaveDict(mem, op.safeBuffer, op.size, Concat(blocks));
      } else {
        var b := CompressOneHc(stream, mem, op, hash, Concat(blocks));
        assert [] + Concat(blocks) == Concat(blocks);
        StreamGrows([], blocks, packed, op.bytes, b);
        packed, blocks := packed + [b], blocks + [op.bytes];
      }
      done := done + 1;
    }
    assert ops[..|ops|] == ops;
    total := DecodeRun(packed, out, blocks);
  }

  lemma NoBlocks()
    ensures EncodesStream([], [], [])
  {
  }

  lemma SaveFits(op: Op, size: nat)
    requires op.Save? && WithinMemory(op, size)
    ensures op.safeBuffer + Max(Min(op.size, KB64), 0) <= size
  {
  }
}
